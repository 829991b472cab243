/** Successive evaluations published as deltas, and the replay of those deltas (items/pit.py, reconcile). */
module Revisions {
  import opened Wrappers
  import opened Extremes

  datatype Coord = Coord(time: int, asset: string)

  datatype OutRow = OutRow(key: Coord, value: Option<int>, observation: int, available: int, baseline: bool)

  /** A published row, effective from its version date. */
  datatype Delta = Delta(row: OutRow, version: int)

  datatype Range = Range(start: int, end: int)

  /** A producer's output at a boundary; the initial evaluation has none. */
  datatype Evaluation = Evaluation(boundary: Option<int>, rows: seq<OutRow>) {

    /** The least version date this evaluation can give a row of a time. */
    function Effective(time: int): (r: int)
      ensures r >= time
    {
      if boundary.None? then time else Max(time, boundary.value)
    }

    /** A row is delayed when its own available date postpones its version. */
    predicate Delayed(row: OutRow) { row.available > Effective(row.key.time) }
  }

  function Lookup(rows: seq<OutRow>, key: Coord): (r: Option<OutRow>)
    ensures r.Some? ==> r.value in rows && r.value.key == key
    ensures r.None? ==> forall row | row in rows :: row.key != key
  {
    if rows == [] then None
    else if rows[0].key == key then Some(rows[0])
    else Lookup(rows[1..], key)
  }

  predicate NoDuplicates(rows: seq<OutRow>) {
    forall i, j | 0 <= i < j < |rows| :: rows[i].key != rows[j].key
  }

  lemma {:induction false} InLookup(rows: seq<OutRow>, row: OutRow)
    requires NoDuplicates(rows)
    ensures row in rows <==> Lookup(rows, row.key) == Some(row)
  {
    if rows != [] {
      assert NoDuplicates(rows[1..]);
      InLookup(rows[1..], row);
      assert row in rows <==> row == rows[0] || row in rows[1..];
    }
  }

  // ---------------------------------------------------------------- publication

  predicate InRange(range: Range, delta: Delta) {
    range.start <= delta.row.key.time <= range.end && delta.version <= range.end
  }

  function ChangedDelta(e: Evaluation, row: OutRow): Delta {
    Delta(row, Max(row.available, e.Effective(row.key.time)))
  }

  function WithdrawnDelta(e: Evaluation, row: OutRow): Delta {
    Delta(row.(value := None), e.Effective(row.key.time))
  }

  function Changed(range: Range, e: Evaluation, rows: seq<OutRow>, previous: Option<seq<OutRow>>): seq<Delta> {
    if rows == [] then [] else
      var delta := ChangedDelta(e, rows[0]);
      (if (previous.None? || rows[0] !in previous.value) && InRange(range, delta) then [delta] else [])
        + Changed(range, e, rows[1..], previous)
  }

  function Removed(range: Range, e: Evaluation, previous: seq<OutRow>): seq<Delta> {
    if previous == [] then [] else
      var delta := WithdrawnDelta(e, previous[0]);
      (if Lookup(e.rows, previous[0].key).None? && InRange(range, delta) then [delta] else [])
        + Removed(range, e, previous[1..])
  }

  /** Rows that differ from the previous evaluation, and null rows for withdrawn keys. */
  function Reconcile(range: Range, e: Evaluation, previous: Option<seq<OutRow>>): seq<Delta> {
    Changed(range, e, e.rows, previous) + if previous.None? then [] else Removed(range, e, previous.value)
  }

  function Previous(run: seq<Evaluation>): Option<seq<OutRow>> {
    if run == [] then None else Some(run[|run| - 1].rows)
  }

  /** Everything published by a run of evaluations. */
  function Log(range: Range, run: seq<Evaluation>): seq<Delta> {
    if run == [] then [] else
      var earlier := run[..|run| - 1];
      Log(range, earlier) + Reconcile(range, run[|run| - 1], Previous(earlier))
  }

  // ---------------------------------------------------------------- what is published, from the rows alone

  /** A version date: the least day on which all the dates given have come. */
  predicate FirstFrom(version: int, dates: set<int>) {
    version in dates && forall date | date in dates :: date <= version
  }

  /** A row that is new or changed, effective once its time, its available date and the boundary have all come. */
  predicate Announced(e: Evaluation, previous: Option<seq<OutRow>>, delta: Delta) {
    && delta.row in e.rows
    && (previous.Some? ==> delta.row !in previous.value)
    && FirstFrom(delta.version,
                 {delta.row.key.time, delta.row.available} + if e.boundary.Some? then {e.boundary.value} else {})
  }

  /** A null row for a key that is gone, effective once its time and the boundary have come. */
  predicate Withdrawn(e: Evaluation, previous: Option<seq<OutRow>>, delta: Delta) {
    && previous.Some?
    && (exists row :: row in previous.value && (forall kept | kept in e.rows :: kept.key != row.key)
          && delta.row == OutRow(row.key, None, row.observation, row.available, row.baseline))
    && FirstFrom(delta.version, {delta.row.key.time} + if e.boundary.Some? then {e.boundary.value} else {})
  }

  /** What an evaluation publishes: announced and withdrawn rows of times in the range, effective by its end. */
  predicate Published(range: Range, e: Evaluation, previous: Option<seq<OutRow>>, delta: Delta) {
    && range.start <= delta.row.key.time <= range.end && range.end >= delta.version
    && (Announced(e, previous, delta) || Withdrawn(e, previous, delta))
  }

  lemma {:induction false} ChangedExactly(range: Range, e: Evaluation, rows: seq<OutRow>, previous: Option<seq<OutRow>>,
                                          delta: Delta)
    ensures delta in Changed(range, e, rows, previous) <==>
              && delta.row in rows && (previous.None? || delta.row !in previous.value)
              && InRange(range, delta) && delta == ChangedDelta(e, delta.row)
  {
    if rows != [] {
      ChangedExactly(range, e, rows[1..], previous, delta);
      assert delta.row in rows <==> delta.row == rows[0] || delta.row in rows[1..];
    }
  }

  lemma {:induction false} RemovedExactly(range: Range, e: Evaluation, previous: seq<OutRow>, delta: Delta)
    ensures delta in Removed(range, e, previous) <==>
              InRange(range, delta) && exists row ::
                row in previous && Lookup(e.rows, row.key).None? && delta == WithdrawnDelta(e, row)
  {
    if previous != [] {
      RemovedExactly(range, e, previous[1..], delta);
      assert forall row :: row in previous <==> row == previous[0] || row in previous[1..];
    }
  }

  lemma AnnouncedIs(e: Evaluation, previous: Option<seq<OutRow>>, delta: Delta)
    ensures Announced(e, previous, delta) <==>
              && delta.row in e.rows && (previous.None? || delta.row !in previous.value)
              && delta == ChangedDelta(e, delta.row)
  {}

  lemma WithdrawnIs(e: Evaluation, previous: seq<OutRow>, delta: Delta)
    ensures Withdrawn(e, Some(previous), delta) <==>
              exists row :: row in previous && Lookup(e.rows, row.key).None? && delta == WithdrawnDelta(e, row)
  {
    forall row | row in previous && Lookup(e.rows, row.key).None?
      ensures forall kept | kept in e.rows :: kept.key != row.key
    {
    }
  }

  /** An evaluation publishes exactly the announced and the withdrawn rows. */
  lemma PublishedExactly(range: Range, e: Evaluation, previous: Option<seq<OutRow>>, delta: Delta)
    ensures delta in Reconcile(range, e, previous) <==> Published(range, e, previous, delta)
  {
    ChangedExactly(range, e, e.rows, previous, delta);
    AnnouncedIs(e, previous, delta);
    if previous.Some? {
      RemovedExactly(range, e, previous.value, delta);
      WithdrawnIs(e, previous.value, delta);
    }
    hide Announced, Withdrawn, Changed, Removed;
  }

  /** The i-th evaluation publishes a delta against the one before it. */
  ghost predicate PublishedAt(range: Range, run: seq<Evaluation>, i: nat, delta: Delta)
    requires i < |run|
  {
    Published(range, run[i], if i == 0 then None else Some(run[i - 1].rows), delta)
  }

  lemma LoggedLast(range: Range, run: seq<Evaluation>, delta: Delta)
    ensures run == [] ==> delta !in Log(range, run)
    ensures run != [] ==>
      var earlier := run[..|run| - 1];
      delta in Log(range, run) <==>
        delta in Log(range, earlier) || delta in Reconcile(range, run[|run| - 1], Previous(earlier))
  {
    hide Reconcile, Previous;
  }

  lemma PublishedLast(range: Range, run: seq<Evaluation>, delta: Delta)
    requires run != []
    ensures var e, previous := run[|run| - 1], Previous(run[..|run| - 1]);
      PublishedAt(range, run, |run| - 1, delta) <==> delta in Reconcile(range, e, previous)
  {
    PublishedExactly(range, run[|run| - 1], Previous(run[..|run| - 1]), delta);
    hide Published, Reconcile;
  }

  lemma PublishedEarlier(range: Range, run: seq<Evaluation>, i: nat, delta: Delta)
    requires i < |run| - 1
    ensures PublishedAt(range, run, i, delta) <==> PublishedAt(range, run[..|run| - 1], i, delta)
  {
    hide Published;
  }

  /** A log holds exactly what its evaluations publish. */
  lemma {:induction false} LoggedExactly(range: Range, run: seq<Evaluation>, delta: Delta)
    ensures delta in Log(range, run) <==> exists i: nat :: i < |run| && PublishedAt(range, run, i, delta)
  {
    hide *;
    LoggedLast(range, run, delta);
    if run != [] {
      var earlier := run[..|run| - 1];
      LoggedExactly(range, earlier, delta);
      PublishedLast(range, run, delta);
      if i: nat :| i < |earlier| && PublishedAt(range, earlier, i, delta) {
        PublishedEarlier(range, run, i, delta);
      }
      if i: nat :| i < |run| - 1 && PublishedAt(range, run, i, delta) {
        PublishedEarlier(range, run, i, delta);
      }
    }
  }

  // ---------------------------------------------------------------- replay

  /** The published row of a key as known on a day: greatest version date, latest publication. */
  function Replay(log: seq<Delta>, key: Coord, day: int): (r: Option<Delta>)
    ensures r.Some? ==> r.value in log && r.value.row.key == key && r.value.version <= day
  {
    if log == [] then None else
      var prior := Replay(log[..|log| - 1], key, day);
      var delta := log[|log| - 1];
      if delta.row.key == key && delta.version <= day && (prior.None? || prior.value.version <= delta.version)
      then Some(delta) else prior
  }

  /** A replayed row agrees with a recomputed one; a withdrawn key shows nothing or a null row. */
  ghost predicate Shows(replayed: Option<Delta>, expected: Option<OutRow>) {
    if expected.Some? then replayed.Some? && replayed.value.row == expected.value
    else replayed.None? || replayed.value.row.value.None?
  }

  lemma ReplayLast(log: seq<Delta>, delta: Delta, key: Coord, day: int)
    ensures var prior := Replay(log, key, day);
      Replay(log + [delta], key, day) ==
        if delta.row.key == key && delta.version <= day && (prior.None? || prior.value.version <= delta.version)
        then Some(delta) else prior
  {
    assert (log + [delta])[..|log + [delta]| - 1] == log;
  }

  lemma {:induction false} ReplaySkipsLater(log: seq<Delta>, more: seq<Delta>, key: Coord, day: int)
    requires forall delta | delta in more && delta.row.key == key :: delta.version > day
    ensures Replay(log + more, key, day) == Replay(log, key, day)
  {
    if more == [] {
      assert log + more == log;
    } else {
      var init := more[..|more| - 1];
      assert log + more == (log + init) + [more[|more| - 1]];
      ReplayLast(log + init, more[|more| - 1], key, day);
      ReplaySkipsLater(log, init, key, day);
    }
  }

  // ---------------------------------------------------------------- the deltas of one key

  function Only(log: seq<Delta>, key: Coord): seq<Delta> {
    if log == [] then [] else
      var rest := Only(log[..|log| - 1], key);
      if log[|log| - 1].row.key == key then rest + [log[|log| - 1]] else rest
  }

  lemma {:induction false} OnlyMembers(log: seq<Delta>, key: Coord)
    ensures forall delta :: delta in Only(log, key) <==> delta in log && delta.row.key == key
  {
    if log != [] {
      OnlyMembers(log[..|log| - 1], key);
      assert log == log[..|log| - 1] + [log[|log| - 1]];
    }
  }

  lemma OnlyLast(log: seq<Delta>, delta: Delta, key: Coord)
    ensures Only(log + [delta], key) == Only(log, key) + if delta.row.key == key then [delta] else []
  {
    assert (log + [delta])[..|log + [delta]| - 1] == log;
  }

  lemma {:induction false} OnlyConcat(a: seq<Delta>, b: seq<Delta>, key: Coord)
    ensures Only(a + b, key) == Only(a, key) + Only(b, key)
  {
    if b == [] {
      assert a + b == a;
    } else {
      var init, last := b[..|b| - 1], b[|b| - 1];
      OnlyConcat(a, init, key);
      assert a + b == (a + init) + [last] && b == init + [last];
      OnlyLast(a + init, last, key);
      OnlyLast(init, last, key);
    }
  }

  lemma {:induction false} ReplayOnly(log: seq<Delta>, key: Coord, day: int)
    ensures Replay(log, key, day) == Replay(Only(log, key), key, day)
  {
    if log != [] {
      var init, last := log[..|log| - 1], log[|log| - 1];
      assert log == init + [last];
      ReplayOnly(init, key, day);
      ReplayLast(init, last, key, day);
      OnlyLast(init, last, key);
      if last.row.key == key { ReplayLast(Only(init, key), last, key, day); }
    }
  }

  lemma OnlyCons(head: seq<Delta>, rest: seq<Delta>, key: Coord)
    requires |head| <= 1
    ensures Only(head + rest, key) == (if head != [] && head[0].row.key == key then head else []) + Only(rest, key)
  {
    OnlyConcat(head, rest, key);
    if head != [] {
      assert head == [] + [head[0]];
      OnlyLast([], head[0], key);
    }
  }

  lemma {:induction false} OnlyChanged(range: Range, e: Evaluation, rows: seq<OutRow>, previous: Option<seq<OutRow>>,
                                       key: Coord)
    requires NoDuplicates(rows)
    ensures var row := Lookup(rows, key);
      Only(Changed(range, e, rows, previous), key) ==
        if row.Some? && (previous.None? || row.value !in previous.value) && InRange(range, ChangedDelta(e, row.value))
        then [ChangedDelta(e, row.value)] else []
  {
    if rows != [] {
      OnlyChanged(range, e, rows[1..], previous, key);
      var head := ChangedDelta(e, rows[0]);
      var first := if (previous.None? || rows[0] !in previous.value) && InRange(range, head) then [head] else [];
      OnlyCons(first, Changed(range, e, rows[1..], previous), key);
      if rows[0].key == key { assert Lookup(rows[1..], key).None?; }
    }
  }

  lemma {:induction false} OnlyRemoved(range: Range, e: Evaluation, previous: seq<OutRow>, key: Coord)
    requires NoDuplicates(previous)
    ensures var row := Lookup(previous, key);
      Only(Removed(range, e, previous), key) ==
        if row.Some? && Lookup(e.rows, key).None? && InRange(range, WithdrawnDelta(e, row.value))
        then [WithdrawnDelta(e, row.value)] else []
  {
    if previous != [] {
      OnlyRemoved(range, e, previous[1..], key);
      var head := WithdrawnDelta(e, previous[0]);
      var first := if Lookup(e.rows, previous[0].key).None? && InRange(range, head) then [head] else [];
      OnlyCons(first, Removed(range, e, previous[1..]), key);
      if previous[0].key == key { assert Lookup(previous[1..], key).None?; }
    }
  }

  /** What an evaluation has to say about one key, given the row before and the row after. */
  function Stamped(e: Evaluation, prior: Option<OutRow>, row: Option<OutRow>): Option<Delta> {
    if row == prior then None
    else if row.Some? then Some(ChangedDelta(e, row.value))
    else Some(WithdrawnDelta(e, prior.value))
  }

  /** What it publishes: nothing is dated after the range. */
  function KeyBatch(range: Range, e: Evaluation, prior: Option<OutRow>, row: Option<OutRow>): (r: seq<Delta>)
    ensures |r| <= 1
  {
    var delta := Stamped(e, prior, row);
    if delta.Some? && delta.value.version <= range.end then [delta.value] else []
  }

  function PriorRow(previous: Option<seq<OutRow>>, key: Coord): (r: Option<OutRow>)
    ensures r.Some? ==> r.value.key == key
  {
    if previous.None? then None else Lookup(previous.value, key)
  }

  /** The published deltas of a key are what its two rows say: nothing, the new row, or a null row. */
  lemma KeyDeltas(range: Range, e: Evaluation, previous: Option<seq<OutRow>>, key: Coord)
    requires NoDuplicates(e.rows) && (previous.Some? ==> NoDuplicates(previous.value))
    requires range.start <= key.time <= range.end
    ensures Only(Reconcile(range, e, previous), key) ==
              KeyBatch(range, e, PriorRow(previous, key), Lookup(e.rows, key))
  {
    hide Lookup, Changed, Removed, Only, NoDuplicates;
    var row, changed := Lookup(e.rows, key), Changed(range, e, e.rows, previous);
    OnlyChanged(range, e, e.rows, previous, key);
    if previous.None? {
      assert changed + [] == changed;
    } else {
      var removed := Removed(range, e, previous.value);
      OnlyRemoved(range, e, previous.value, key);
      OnlyConcat(changed, removed, key);
      if row.Some? {
        InLookup(previous.value, row.value);
        assert Only(changed, key) + [] == Only(changed, key);
      } else {
        assert [] + Only(removed, key) == Only(removed, key);
      }
    }
  }

  // ---------------------------------------------------------------- runs

  ghost predicate Distinct(run: seq<Evaluation>) {
    forall i | 0 <= i < |run| :: NoDuplicates(run[i].rows)
  }

  /** Boundaries ascend inside the range, and only the first evaluation has none. */
  ghost predicate Ordered(range: Range, run: seq<Evaluation>) {
    && range.start <= range.end && Distinct(run)
    && (forall i | 0 <= i < |run| :: run[i].boundary.None? <==> i == 0)
    && (forall i | 0 < i < |run| :: range.start < run[i].boundary.value <= range.end)
    && (forall i, j | 0 < i < j < |run| :: run[i].boundary.value < run[j].boundary.value)
  }

  /** No row is postponed by its own available date. */
  ghost predicate OnTime(range: Range, run: seq<Evaluation>) {
    forall i, row | 0 <= i < |run| && row in run[i].rows && range.start <= row.key.time <= range.end ::
      !run[i].Delayed(row)
  }

  /** The row of a key at an evaluation, and at the one before. */
  function Row(run: seq<Evaluation>, i: nat, key: Coord): (r: Option<OutRow>)
    requires i < |run|
    ensures r.Some? ==> r.value.key == key && r.value in run[i].rows
  {
    Lookup(run[i].rows, key)
  }

  function Prior(run: seq<Evaluation>, i: nat, key: Coord): (r: Option<OutRow>)
    requires i < |run|
    ensures r.Some? ==> r.value.key == key
  {
    if i == 0 then None else Row(run, i - 1, key)
  }

  /** What the i-th evaluation publishes about a key. */
  function Batch(range: Range, run: seq<Evaluation>, i: nat, key: Coord): (r: seq<Delta>)
    requires i < |run|
    ensures |r| <= 1
  {
    KeyBatch(range, run[i], Prior(run, i, key), Row(run, i, key))
  }

  lemma LogGrows(range: Range, run: seq<Evaluation>, n: nat)
    requires n < |run|
    ensures Log(range, run[..n + 1]) == Log(range, run[..n]) + Reconcile(range, run[n], Previous(run[..n]))
  {
    assert run[..n + 1][..n] == run[..n];
  }

  /** The replayed row after one more evaluation: the newly published one unless a later-dated one is in force. */
  function Superseded(prior: Option<Delta>, batch: seq<Delta>, day: int): Option<Delta> {
    if batch != [] && batch[0].version <= day && (prior.None? || prior.value.version <= batch[0].version)
    then Some(batch[0]) else prior
  }

  lemma ReplayGrows(range: Range, run: seq<Evaluation>, n: nat, key: Coord, day: int)
    requires n < |run| && Distinct(run) && range.start <= key.time <= range.end
    ensures Replay(Log(range, run[..n + 1]), key, day)
         == Superseded(Replay(Log(range, run[..n]), key, day), Batch(range, run, n, key), day)
  {
    var log, more := Log(range, run[..n]), Reconcile(range, run[n], Previous(run[..n]));
    LogGrows(range, run, n);
    KeyDeltas(range, run[n], Previous(run[..n]), key);
    ReplayOnly(log + more, key, day);
    ReplayOnly(log, key, day);
    OnlyConcat(log, more, key);
    OnlyMembers(more, key);
    var batch := Batch(range, run, n, key);
    assert Only(more, key) == batch;
    if batch == [] {
      assert Only(log, key) + batch == Only(log, key);
    } else {
      assert batch == [batch[0]] && batch[0] in batch;
      ReplayLast(Only(log, key), batch[0], key, day);
    }
  }

  /** What the first two evaluations show of a key. */
  lemma TwoBatches(range: Range, run: seq<Evaluation>, key: Coord, day: int)
    requires |run| >= 2 && Distinct(run) && range.start <= key.time <= range.end
    ensures Replay(Log(range, run[..2]), key, day)
         == Superseded(Superseded(None, Batch(range, run, 0, key), day), Batch(range, run, 1, key), day)
  {
    hide *;
    NothingLogged(range, run, key, day);
    ReplayGrows(range, run, 0, key, day);
    ReplayGrows(range, run, 1, key, day);
  }

  /** The j-th batch holds the delta, and other deltas dated by the day are dated no later, and earlier if their batch
      comes afterwards. */
  ghost predicate Wins(batches: seq<seq<Delta>>, day: int, j: nat, delta: Delta) {
    && j < |batches| && batches[j] == [delta] && delta.version <= day
    && forall k | 0 <= k < |batches| && batches[k] != [] && batches[k][0].version <= day ::
         batches[k][0].version <= delta.version && (j < k ==> batches[k][0].version < delta.version)
  }

  ghost predicate NothingBy(batches: seq<seq<Delta>>, day: int) {
    forall k | 0 <= k < |batches| && batches[k] != [] :: day < batches[k][0].version
  }

  /** The delta of a key shown on a day after some batches. */
  function Latest(batches: seq<seq<Delta>>, day: int): Option<Delta> {
    if batches == [] then None
    else Superseded(Latest(batches[..|batches| - 1], day), batches[|batches| - 1], day)
  }

  /** It is the last of the greatest-dated deltas, and there is one whenever one is dated by the day. */
  lemma {:induction false} LatestWins(batches: seq<seq<Delta>>, day: int) returns (j: nat)
    requires forall b | b in batches :: |b| <= 1
    ensures Latest(batches, day).Some? ==> Wins(batches, day, j, Latest(batches, day).value)
    ensures Latest(batches, day).None? ==> NothingBy(batches, day)
  {
    j := 0;
    if batches != [] {
      var init, top := batches[..|batches| - 1], batches[|batches| - 1];
      assert top in batches;
      j := LatestWins(init, day);
      if top != [] && top[0].version <= day
        && (Latest(init, day).None? || Latest(init, day).value.version <= top[0].version) {
        j := |init|;
        assert top == [top[0]];
      }
    }
  }

  /** What the first n evaluations publish about a key. */
  function Batches(range: Range, run: seq<Evaluation>, n: nat, key: Coord): (r: seq<seq<Delta>>)
    requires n <= |run|
    ensures |r| == n && forall i | 0 <= i < n :: r[i] == Batch(range, run, i, key)
    ensures forall b | b in r :: |b| <= 1
  {
    if n == 0 then [] else Batches(range, run, n - 1, key) + [Batch(range, run, n - 1, key)]
  }

  lemma BatchesStep(range: Range, run: seq<Evaluation>, n: nat, key: Coord)
    requires n < |run|
    ensures Batches(range, run, n + 1, key) == Batches(range, run, n, key) + [Batch(range, run, n, key)]
  {}

  lemma LatestStep(batches: seq<seq<Delta>>, batch: seq<Delta>, day: int)
    ensures Latest(batches + [batch], day) == Superseded(Latest(batches, day), batch, day)
  {
    assert (batches + [batch])[..|batches|] == batches;
  }

  lemma NothingLogged(range: Range, run: seq<Evaluation>, key: Coord, day: int)
    ensures Replay(Log(range, run[..0]), key, day) == Latest(Batches(range, run, 0, key), day) == None
  {
    assert run[..0] == [];
  }

  lemma ReplayIsLatestStep(range: Range, run: seq<Evaluation>, n: nat, key: Coord, day: int)
    requires n < |run| && Distinct(run) && range.start <= key.time <= range.end
    requires Replay(Log(range, run[..n]), key, day) == Latest(Batches(range, run, n, key), day)
    ensures Replay(Log(range, run[..n + 1]), key, day) == Latest(Batches(range, run, n + 1, key), day)
  {
    hide *;
    ReplayGrows(range, run, n, key, day);
    BatchesStep(range, run, n, key);
    LatestStep(Batches(range, run, n, key), Batch(range, run, n, key), day);
  }

  lemma {:induction false} ReplayIsLatest(range: Range, run: seq<Evaluation>, n: nat, key: Coord, day: int)
    requires n <= |run| && Distinct(run) && range.start <= key.time <= range.end
    ensures Replay(Log(range, run[..n]), key, day) == Latest(Batches(range, run, n, key), day)
    decreases n
  {
    hide *;
    if n == 0 {
      NothingLogged(range, run, key, day);
    } else {
      ReplayIsLatest(range, run, n - 1, key, day);
      ReplayIsLatestStep(range, run, n - 1, key, day);
    }
  }

  lemma {:induction false} ChangedFrom(range: Range, e: Evaluation, rows: seq<OutRow>, previous: Option<seq<OutRow>>)
    ensures forall delta | delta in Changed(range, e, rows, previous) ::
      delta.version >= e.Effective(delta.row.key.time)
  {
    if rows != [] { ChangedFrom(range, e, rows[1..], previous); }
  }

  lemma {:induction false} RemovedFrom(range: Range, e: Evaluation, previous: seq<OutRow>)
    ensures forall delta | delta in Removed(range, e, previous) :: delta.version >= e.Effective(delta.row.key.time)
  {
    if previous != [] { RemovedFrom(range, e, previous[1..]); }
  }

  /** Nothing an evaluation publishes is dated before its boundary. */
  lemma PublishedFrom(range: Range, e: Evaluation, previous: Option<seq<OutRow>>)
    ensures forall delta | delta in Reconcile(range, e, previous) :: delta.version >= e.Effective(delta.row.key.time)
  {
    ChangedFrom(range, e, e.rows, previous);
    if previous.Some? { RemovedFrom(range, e, previous.value); }
  }

  /** Evaluations whose boundary lies after a day do not change what the log shows on it. */
  lemma {:induction false} LaterBoundariesHidden(range: Range, run: seq<Evaluation>, n: nat, key: Coord, day: int)
    requires n <= |run|
    requires forall i | n <= i < |run| :: run[i].boundary.Some? && day < run[i].boundary.value
    ensures Replay(Log(range, run), key, day) == Replay(Log(range, run[..n]), key, day)
    decreases |run|
  {
    if n == |run| {
      assert run[..n] == run;
    } else {
      var earlier, e := run[..|run| - 1], run[|run| - 1];
      PublishedFrom(range, e, Previous(earlier));
      ReplaySkipsLater(Log(range, earlier), Reconcile(range, e, Previous(earlier)), key, day);
      assert earlier[..n] == run[..n];
      LaterBoundariesHidden(range, earlier, n, key, day);
    }
  }

  // ---------------------------------------------------------------- values wait for their available date

  lemma {:induction false} ChangedVersions(range: Range, e: Evaluation, rows: seq<OutRow>,
                                           previous: Option<seq<OutRow>>)
    ensures forall delta | delta in Changed(range, e, rows, previous) :: delta.version >= delta.row.available
  {
    if rows != [] { ChangedVersions(range, e, rows[1..], previous); }
  }

  lemma {:induction false} RemovedValues(range: Range, e: Evaluation, previous: seq<OutRow>)
    ensures forall delta | delta in Removed(range, e, previous) :: delta.row.value.None?
  {
    if previous != [] { RemovedValues(range, e, previous[1..]); }
  }

  lemma {:induction false} ValuesAwaitAvailability(range: Range, run: seq<Evaluation>)
    ensures forall delta | delta in Log(range, run) && delta.row.value.Some? :: delta.version >= delta.row.available
  {
    if run != [] {
      var e, previous := run[|run| - 1], Previous(run[..|run| - 1]);
      ValuesAwaitAvailability(range, run[..|run| - 1]);
      ChangedVersions(range, e, e.rows, previous);
      if previous.Some? { RemovedValues(range, e, previous.value); }
    }
  }

  lemma {:induction false} IdenticalRowsEmitNothing(range: Range, e: Evaluation, rows: seq<OutRow>)
    requires forall row | row in rows :: row in e.rows
    ensures Changed(range, e, rows, Some(e.rows)) == [] && Removed(range, e, rows) == []
  {
    if rows != [] { IdenticalRowsEmitNothing(range, e, rows[1..]); }
  }
}
