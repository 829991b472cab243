/** Filling a panel forward over a finite number of sessions (transforms.py, align_panel;
    items/availability.py, _forward_fill_panel). */
module ForwardFill {
  import opened Wrappers
  import opened Sorting
  import opened Calendars

  /** An observation of an asset; a missing value is a null the provider reported. */
  datatype Observation = Observation(asset: string, time: int, available: int, value: Option<int>)

  /** No observation is exposed before its own date or its availability. */
  function Effective(o: Observation): int { if o.time >= o.available then o.time else o.available }

  // ---------------------------------------------------------------- preparing the events of one asset

  predicate Earlier(a: Observation, b: Observation) {
    Effective(a) < Effective(b) || (Effective(a) == Effective(b) && a.time <= b.time)
  }

  /** The asset's observations whose effective date has a session on or after it. */
  function Usable(observations: seq<Observation>, asset: string, sessions: seq<int>): (r: seq<Observation>)
    ensures forall o :: o in r <==>
      o in observations && o.asset == asset && BisectLeft(sessions, Effective(o)) < |sessions|
  {
    if observations == [] then [] else
      assert forall o :: o in observations <==> o == observations[0] || o in observations[1..];
      var o := observations[0];
      (if o.asset == asset && BisectLeft(sessions, Effective(o)) < |sessions| then [o] else [])
      + Usable(observations[1..], asset, sessions)
  }

  /** Of neighbours with one effective date the last is kept. */
  function KeepLast(events: seq<Observation>): seq<Observation> {
    if |events| < 2 then events
    else if Effective(events[0]) == Effective(events[1]) then KeepLast(events[1..])
    else [events[0]] + KeepLast(events[1..])
  }

  function Prepared(observations: seq<Observation>, asset: string, sessions: seq<int>): seq<Observation> {
    KeepLast(Sort(Usable(observations, asset, sessions), Earlier))
  }

  /** The first position from a given one whose event is not effective by a day. */
  function ArrivedFrom(events: seq<Observation>, from: nat, day: int): (k: nat)
    requires from <= |events|
    ensures from <= k <= |events|
    decreases |events| - from
  {
    if from == |events| || day < Effective(events[from]) then from else ArrivedFrom(events, from + 1, day)
  }

  /** How many leading events are effective by a day. */
  function Arrived(events: seq<Observation>, day: int): (k: nat)
    ensures k <= |events|
  {
    ArrivedFrom(events, 0, day)
  }

  lemma {:induction false} ArrivedBounds(events: seq<Observation>, from: nat, day: int)
    requires from <= |events|
    ensures var k := ArrivedFrom(events, from, day);
      (forall i | from <= i < k :: Effective(events[i]) <= day) && (k < |events| ==> day < Effective(events[k]))
    decreases |events| - from
  {
    if from < |events| && Effective(events[from]) <= day { ArrivedBounds(events, from + 1, day); }
  }

  /** The backward as-of join of one day. */
  function AsOf(events: seq<Observation>, day: int): Option<Observation> {
    var k := Arrived(events, day);
    if k == 0 then None else Some(events[k - 1])
  }

  /** The fast form: the as-of event at session j, unless n sessions have passed since the session it arrived at. */
  function Cell(events: seq<Observation>, sessions: seq<int>, n: int, j: nat): Option<Observation>
    requires j < |sessions|
  {
    match AsOf(events, sessions[j])
    case None => None
    case Some(o) => if j - BisectLeft(sessions, Effective(o)) < n then Some(o) else None
  }

  // ---------------------------------------------------------------- the step simulation

  /** Where the walk stands: how many events were taken off the queue, the last one taken, and its age in sessions. */
  datatype Hold = Hold(taken: nat, held: Option<Observation>, age: int)

  /** One session: newly effective events are taken and the last one is held with age zero; otherwise the held one
      ages. */
  function Step(events: seq<Observation>, day: int, h: Hold): (r: Hold)
    requires h.taken <= |events|
    ensures h.taken <= r.taken <= |events|
  {
    var k := ArrivedFrom(events, h.taken, day);
    if k > h.taken then Hold(k, Some(events[k - 1]), 0) else h.(age := h.age + 1)
  }

  /** What a session shows: an event of age n or more has expired. */
  function Show(h: Hold, n: int): Option<Observation> {
    if h.held.Some? && h.age < n then h.held else None
  }

  /** Walking the first p sessions one by one. */
  function After(events: seq<Observation>, sessions: seq<int>, p: nat): (r: Hold)
    requires p <= |sessions|
    ensures r.taken <= |events|
  {
    if p == 0 then Hold(0, None, 0) else Step(events, sessions[p - 1], After(events, sessions, p - 1))
  }

  /** What walking the sessions shows at session j. */
  function Simulated(events: seq<Observation>, sessions: seq<int>, n: int, j: nat): Option<Observation>
    requires j < |sessions|
  {
    Show(After(events, sessions, j + 1), n)
  }

  /** Events in strictly increasing order of their effective dates. */
  ghost predicate Strict(events: seq<Observation>) {
    forall i, j | 0 <= i < j < |events| :: Effective(events[i]) < Effective(events[j])
  }

  /** Events known to be effective may be skipped. */
  lemma {:induction false} ArrivedSkips(events: seq<Observation>, from: nat, c: nat, day: int)
    requires from <= c <= |events| && forall i | from <= i < c :: Effective(events[i]) <= day
    ensures ArrivedFrom(events, from, day) == ArrivedFrom(events, c, day)
    decreases c - from
  {
    if from < c { ArrivedSkips(events, from + 1, c, day); }
  }

  /** How many events are effective before session p. */
  function TakenBefore(events: seq<Observation>, sessions: seq<int>, p: nat): (c: nat)
    requires p <= |sessions|
    ensures c <= |events|
  {
    if p == 0 then 0 else Arrived(events, sessions[p - 1])
  }

  /** The walk's state after p sessions, from the calendar alone. */
  function Expected(events: seq<Observation>, sessions: seq<int>, p: nat): Hold
    requires p <= |sessions|
  {
    var c := TakenBefore(events, sessions, p);
    if c == 0 then Hold(0, None, p)
    else Hold(c, Some(events[c - 1]), p - 1 - BisectLeft(sessions, Effective(events[c - 1])))
  }

  lemma WalkStep(events: seq<Observation>, sessions: seq<int>, p: nat)
    requires Strict(events) && Ascending(sessions) && p < |sessions|
    ensures Expected(events, sessions, p).taken <= |events|
    ensures Step(events, sessions[p], Expected(events, sessions, p)) == Expected(events, sessions, p + 1)
  {
    SkipTaken(events, sessions, p);
    if TakenBefore(events, sessions, p) < TakenBefore(events, sessions, p + 1) {
      ArrivesNow(events, sessions, p, TakenBefore(events, sessions, p + 1) - 1);
    }
  }

  lemma SkipTaken(events: seq<Observation>, sessions: seq<int>, p: nat)
    requires Ascending(sessions) && p < |sessions|
    ensures ArrivedFrom(events, TakenBefore(events, sessions, p), sessions[p]) == TakenBefore(events, sessions, p + 1)
  {
    if p > 0 {
      ArrivedBounds(events, 0, sessions[p - 1]);
      assert sessions[p - 1] < sessions[p];
    }
    ArrivedSkips(events, 0, TakenBefore(events, sessions, p), sessions[p]);
  }

  /** An event first effective by session p has p as its session. */
  lemma ArrivesNow(events: seq<Observation>, sessions: seq<int>, p: nat, i: nat)
    requires Strict(events) && Ascending(sessions) && p < |sessions|
    requires TakenBefore(events, sessions, p) <= i < Arrived(events, sessions[p])
    ensures BisectLeft(sessions, Effective(events[i])) == p
  {
    ArrivedBounds(events, 0, sessions[p]);
    if p > 0 {
      ArrivedBounds(events, 0, sessions[p - 1]);
      var c := TakenBefore(events, sessions, p);
      assert sessions[p - 1] < Effective(events[c]) <= Effective(events[i]);
    }
    BisectExact(sessions, Effective(events[i]), p);
  }

  lemma {:induction false} AfterIsExpected(events: seq<Observation>, sessions: seq<int>, p: nat)
    requires Strict(events) && Ascending(sessions) && p <= |sessions|
    ensures After(events, sessions, p) == Expected(events, sessions, p)
  {
    if p > 0 {
      AfterIsExpected(events, sessions, p - 1);
      WalkStep(events, sessions, p - 1);
    }
  }

  lemma CellIsSimulated(events: seq<Observation>, sessions: seq<int>, n: int, j: nat)
    requires Strict(events) && Ascending(sessions) && j < |sessions|
    ensures Cell(events, sessions, n, j) == Simulated(events, sessions, n, j)
  {
    AfterIsExpected(events, sessions, j + 1);
  }

  // ---------------------------------------------------------------- what is prepared

  lemma {:induction false} KeepLastOrders(events: seq<Observation>)
    requires SortedBy(events, Earlier)
    ensures Strict(KeepLast(events))
    ensures forall o | o in KeepLast(events) :: o in events
    ensures events != [] ==> KeepLast(events) != [] && Effective(KeepLast(events)[0]) == Effective(events[0])
  {
    if |events| >= 2 {
      KeepLastOrders(events[1..]);
      var rest := KeepLast(events[1..]);
      assert Earlier(events[0], events[1]);
    }
  }

  lemma {:induction false} ArrivedTail(events: seq<Observation>, i: nat, day: int)
    requires i < |events|
    ensures ArrivedFrom(events, i + 1, day) == 1 + ArrivedFrom(events[1..], i, day)
    decreases |events| - i
  {
    if i + 1 < |events| && Effective(events[i + 1]) <= day { ArrivedTail(events, i + 1, day); }
  }

  lemma AsOfCons(first: Observation, rest: seq<Observation>, day: int)
    ensures AsOf([first] + rest, day) ==
              if day < Effective(first) then None
              else if rest == [] || day < Effective(rest[0]) then Some(first)
              else AsOf(rest, day)
  {
    var events := [first] + rest;
    assert events[1..] == rest;
    if Effective(first) <= day { ArrivedTail(events, 0, day); }
  }

  /** Dropping all but the last of one date does not change what an as-of join finds. */
  lemma {:induction false} KeepLastKeepsAsOf(events: seq<Observation>, day: int)
    requires SortedBy(events, Earlier)
    ensures AsOf(KeepLast(events), day) == AsOf(events, day)
  {
    if |events| >= 2 {
      var first, rest := events[0], events[1..];
      assert events == [first] + rest;
      KeepLastKeepsAsOf(rest, day);
      KeepLastOrders(rest);
      AsOfCons(first, rest, day);
      AsOfCons(first, KeepLast(rest), day);
    }
  }

  lemma EarlierIsTotal()
    ensures TotalPreorder(Earlier)
  {}

  /** The last of some observations effective by a day, by effective date and then time. */
  ghost predicate Latest(found: Option<Observation>, observations: seq<Observation>, asset: string, day: int) {
    match found
    case None => forall o | o in observations && o.asset == asset :: day < Effective(o)
    case Some(e) =>
      && e in observations && e.asset == asset && Effective(e) <= day
      && forall o | o in observations && o.asset == asset && Effective(o) <= day :: Earlier(o, e)
  }

  lemma SortedAsOf(events: seq<Observation>, day: int)
    requires SortedBy(events, Earlier)
    ensures var found := AsOf(events, day);
      && (found.None? ==> forall o | o in events :: day < Effective(o))
      && (found.Some? ==> found.value in events && Effective(found.value) <= day)
      && (found.Some? ==> forall o | o in events && Effective(o) <= day :: Earlier(o, found.value))
  {
    var k := Arrived(events, day);
    ArrivedBounds(events, 0, day);
    assert forall m | k < m < |events| :: Earlier(events[k], events[m]);
    assert forall m | 0 <= m < k - 1 :: Earlier(events[m], events[k - 1]);
    forall o | o in events && Effective(o) <= day ensures k > 0 && Earlier(o, events[k - 1]) {
      var m :| 0 <= m < |events| && events[m] == o;
    }
  }

  /** The as-of event is the latest of the asset's observations that are effective by the day. */
  lemma AsOfIsLatest(observations: seq<Observation>, asset: string, sessions: seq<int>, day: int)
    requires Ascending(sessions) && day in sessions
    ensures Latest(AsOf(Prepared(observations, asset, sessions), day), observations, asset, day)
  {
    var usable := Usable(observations, asset, sessions);
    var events := Sort(usable, Earlier);
    EarlierIsTotal();
    SortSorts(usable, Earlier);
    SortKeepsElements(usable, Earlier);
    KeepLastKeepsAsOf(events, day);
    SortedAsOf(events, day);
    forall o | o in observations && o.asset == asset && Effective(o) <= day ensures o in events {
      var i :| 0 <= i < |sessions| && sessions[i] == day;
    }
  }

  lemma PreparedIsStrict(observations: seq<Observation>, asset: string, sessions: seq<int>)
    ensures Strict(Prepared(observations, asset, sessions))
  {
    var usable := Usable(observations, asset, sessions);
    EarlierIsTotal();
    SortSorts(usable, Earlier);
    KeepLastOrders(Sort(usable, Earlier));
  }

  // ---------------------------------------------------------------- the panel

  /** The as-of join with an index distance shows, at every session, what walking the sessions one by one shows. */
  lemma FillIsSimulation(observations: seq<Observation>, asset: string, sessions: seq<int>, n: int, j: nat)
    requires Ascending(sessions) && j < |sessions|
    ensures var events := Prepared(observations, asset, sessions);
      Cell(events, sessions, n, j) == Simulated(events, sessions, n, j)
  {
    var events := Prepared(observations, asset, sessions);
    PreparedIsStrict(observations, asset, sessions);
    CellIsSimulated(events, sessions, n, j);
  }

  /** An asset has at most one observation of a date. */
  ghost predicate UniqueKeys(observations: seq<Observation>) {
    forall a, b | a in observations && b in observations && a.asset == b.asset && a.time == b.time :: a == b
  }

  /** Two panels hold the same of what is effective by a day. */
  ghost predicate SameKnown(a: seq<Observation>, b: seq<Observation>, asset: string, day: int) {
    forall o: Observation | o.asset == asset && Effective(o) <= day :: o in a <==> o in b
  }

  /** No look-ahead: what is shown at a session depends only on observations effective by then. */
  lemma NeverLooksAhead(a: seq<Observation>, b: seq<Observation>, asset: string, sessions: seq<int>, n: int, j: nat)
    requires Ascending(sessions) && j < |sessions| && UniqueKeys(a) && SameKnown(a, b, asset, sessions[j])
    ensures Cell(Prepared(a, asset, sessions), sessions, n, j) == Cell(Prepared(b, asset, sessions), sessions, n, j)
  {
    var day := sessions[j];
    AsOfIsLatest(a, asset, sessions, day);
    AsOfIsLatest(b, asset, sessions, day);
    var x, y := AsOf(Prepared(a, asset, sessions), day), AsOf(Prepared(b, asset, sessions), day);
    if x.Some? && y.Some? {
      assert Earlier(x.value, y.value) && Earlier(y.value, x.value);
    }
  }

  /** A shown value: missing when nothing has arrived, when it has expired, and when the latest report is a null. */
  function Shown(observations: seq<Observation>, asset: string, sessions: seq<int>, n: int, j: nat): Option<int>
    requires j < |sessions|
  {
    match Cell(Prepared(observations, asset, sessions), sessions, n, j)
    case None => None
    case Some(o) => o.value
  }

  // ---------------------------------------------------------------- what a cell shows, from the dates alone

  /** Both dates of an observation have come. */
  predicate Known(o: Observation, day: int) {
    o.time <= day && o.available <= day
  }

  /** Of the asset's observations known on a day, the one that became known last; of those of one day, the one with
      the latest observation date. */
  ghost predicate Newest(e: Observation, observations: seq<Observation>, asset: string, day: int) {
    && e in observations && e.asset == asset && Known(e, day)
    && forall o | o in observations && o.asset == asset && Known(o, day) ::
         && (forall d | Known(e, d) :: Known(o, d))
         && ((forall d | Known(o, d) :: Known(e, d)) ==> o.time <= e.time)
  }

  /** An observation is held for n sessions: n sessions ago it was not known yet. */
  predicate Fresh(o: Observation, sessions: seq<int>, n: int, j: nat)
    requires j < |sessions|
  {
    0 < n && (j < n || !Known(o, sessions[j - n]))
  }

  lemma KnownFrom(o: Observation, e: Observation)
    ensures forall d :: Known(o, d) <==> Effective(o) <= d
    ensures (forall d | Known(e, d) :: Known(o, d)) <==> Effective(o) <= Effective(e)
  {
    assert Known(e, Effective(e));
  }

  lemma NewestIsLatest(e: Observation, observations: seq<Observation>, asset: string, day: int)
    ensures Newest(e, observations, asset, day) <==> Latest(Some(e), observations, asset, day)
  {
    forall o: Observation
      ensures Known(o, day) <==> Effective(o) <= day
      ensures Earlier(o, e) <==>
        (forall d | Known(e, d) :: Known(o, d)) && ((forall d | Known(o, d) :: Known(e, d)) ==> o.time <= e.time)
    {
      KnownFrom(o, e);
      KnownFrom(e, o);
    }
    hide Known, Effective, Earlier;
  }

  lemma FreshByIndex(e: Observation, sessions: seq<int>, n: int, j: nat)
    requires Ascending(sessions) && j < |sessions| && Known(e, sessions[j])
    ensures Fresh(e, sessions, n, j) <==> j - BisectLeft(sessions, Effective(e)) < n
  {
    KnownFrom(e, e);
    var k := BisectLeft(sessions, Effective(e));
    if 0 < n <= j && k <= j - n { assert Effective(e) <= sessions[k] <= sessions[j - n]; }
  }

  lemma OneNewest(a: Observation, b: Observation, observations: seq<Observation>, asset: string, day: int)
    requires UniqueKeys(observations) && Latest(Some(a), observations, asset, day)
    requires Latest(Some(b), observations, asset, day)
    ensures a == b
  {
    assert Earlier(a, b) && Earlier(b, a);
  }

  /** A cell shows an observation exactly when it is the newest known one and still fresh. */
  lemma CellExactly(observations: seq<Observation>, asset: string, sessions: seq<int>, n: int, j: nat, e: Observation)
    requires Ascending(sessions) && j < |sessions| && UniqueKeys(observations)
    ensures Cell(Prepared(observations, asset, sessions), sessions, n, j) == Some(e) <==>
              Newest(e, observations, asset, sessions[j]) && Fresh(e, sessions, n, j)
  {
    var day := sessions[j];
    var found := AsOf(Prepared(observations, asset, sessions), day);
    AsOfIsLatest(observations, asset, sessions, day);
    NewestIsLatest(e, observations, asset, day);
    KnownFrom(e, e);
    if Latest(Some(e), observations, asset, day) {
      OneNewest(found.value, e, observations, asset, day);
      FreshByIndex(e, sessions, n, j);
    }
  }

  /** A value is shown exactly when the newest known observation reports it and is still fresh: a newer null hides it,
      an expired observation shows nothing. */
  lemma ShownExactly(observations: seq<Observation>, asset: string, sessions: seq<int>, n: int, j: nat, value: int)
    requires Ascending(sessions) && j < |sessions| && UniqueKeys(observations)
    ensures Shown(observations, asset, sessions, n, j) == Some(value) <==>
              exists e ::
                Newest(e, observations, asset, sessions[j]) && Fresh(e, sessions, n, j) && e.value == Some(value)
  {
    var cell := Cell(Prepared(observations, asset, sessions), sessions, n, j);
    if cell.Some? { CellExactly(observations, asset, sessions, n, j, cell.value); }
    if e :| Newest(e, observations, asset, sessions[j]) && Fresh(e, sessions, n, j) && e.value == Some(value) {
      CellExactly(observations, asset, sessions, n, j, e);
    }
  }

  // ---------------------------------------------------------------- the provider panel

  datatype PanelError = OffCalendar

  function IndexOf(sessions: seq<int>, day: int): Option<nat> {
    var k := BisectLeft(sessions, day);
    if k < |sessions| && sessions[k] == day then Some(k) else None
  }

  /** The provider panel drops observation times before its join: an event is effective when it is available. */
  function Dated(events: seq<Observation>): (r: seq<Observation>)
    ensures |r| == |events|
    ensures forall i | 0 <= i < |events| :: r[i] == events[i].(time := events[i].available)
  {
    if events == [] then [] else [events[0].(time := events[0].available)] + Dated(events[1..])
  }

  /** One row of the provider panel: dates must be sessions, the as-of join is by availability, and an expired row is
      left out. */
  function PanelRow(events: seq<Observation>, sessions: seq<int>, n: int,
                    day: int): Result<Option<Observation>, PanelError>
  {
    if IndexOf(sessions, day).None? || exists o :: o in events && IndexOf(sessions, o.available).None? then
      Failure(OffCalendar)
    else
      match AsOf(Dated(events), day)
      case None => Success(None)
      case Some(o) =>
        var k := Arrived(Dated(events), day);
        assert events[k - 1] in events;
        if IndexOf(sessions, day).value - IndexOf(sessions, o.available).value < n
        then Success(Some(o)) else Success(None)
  }

  lemma IndexFound(sessions: seq<int>, day: int)
    requires Ascending(sessions)
    ensures IndexOf(sessions, day).Some? <==> day in sessions
    ensures IndexOf(sessions, day).Some? ==> IndexOf(sessions, day).value == BisectLeft(sessions, day)
  {
    if i :| 0 <= i < |sessions| && sessions[i] == day { BisectExact(sessions, day, i); }
  }

  /** Events on the calendar give a row by the index distance of their join. */
  lemma PanelRowIsCell(events: seq<Observation>, sessions: seq<int>, n: int, j: nat)
    requires Ascending(sessions) && j < |sessions| && forall o | o in events :: o.available in sessions
    ensures PanelRow(events, sessions, n, sessions[j]) == Success(Cell(Dated(events), sessions, n, j))
  {
    BisectExact(sessions, sessions[j], j);
    forall o | o in events ensures IndexOf(sessions, o.available).Some? { IndexFound(sessions, o.available); }
    var k := Arrived(Dated(events), sessions[j]);
    if k > 0 {
      assert events[k - 1] in events;
      IndexFound(sessions, events[k - 1].available);
    }
  }

  /** Event i is the last available by session j, and n sessions ago it was not available yet. */
  predicate ShowsEvent(events: seq<Observation>, sessions: seq<int>, n: int, j: nat, i: nat)
    requires j < |sessions| && i < |events|
  {
    && events[i].available <= sessions[j]
    && (i + 1 < |events| ==> sessions[j] < events[i + 1].available)
    && 0 < n && (j < n || sessions[j - n] < events[i].available)
  }

  lemma ArrivedDated(events: seq<Observation>, day: int)
    ensures var k := Arrived(Dated(events), day);
      (k > 0 ==> events[k - 1].available <= day) && (k < |events| ==> day < events[k].available)
  {
    var k := Arrived(Dated(events), day);
    ArrivedBounds(Dated(events), 0, day);
    if k > 0 { DatedAt(events, k - 1); }
    if k < |events| { DatedAt(events, k); }
    hide Dated, ArrivedFrom, Effective;
  }

  lemma DatedAt(events: seq<Observation>, i: nat)
    requires i < |events|
    ensures Effective(Dated(events)[i]) == events[i].available
  {
    hide Dated;
  }

  lemma DatedArrived(events: seq<Observation>, day: int, i: nat)
    requires forall i, k | 0 <= i < k < |events| :: events[i].available < events[k].available
    requires i < |events| && events[i].available <= day && (i + 1 < |events| ==> day < events[i + 1].available)
    ensures Arrived(Dated(events), day) == i + 1
  {
    ArrivedDated(events, day);
    hide *;
  }

  /** The as-of event is shown while it is fresh. */
  lemma CellFresh(events: seq<Observation>, sessions: seq<int>, n: int, j: nat)
    requires Ascending(sessions) && j < |sessions| && Arrived(events, sessions[j]) > 0
    ensures var e := events[Arrived(events, sessions[j]) - 1];
      Cell(events, sessions, n, j) == if Fresh(e, sessions, n, j) then Some(e) else None
  {
    var e := events[Arrived(events, sessions[j]) - 1];
    ArrivedBounds(events, 0, sessions[j]);
    KnownFrom(e, e);
    FreshByIndex(e, sessions, n, j);
    hide ArrivedFrom, BisectLeft, Fresh, Known, Effective;
  }

  lemma DatedCell(events: seq<Observation>, sessions: seq<int>, n: int, j: nat, i: nat)
    requires Ascending(sessions) && j < |sessions| && i < |events|
    requires i + 1 == Arrived(Dated(events), sessions[j])
    ensures Cell(Dated(events), sessions, n, j) ==
      if ShowsEvent(events, sessions, n, j, i) then Some(Dated(events)[i]) else None
  {
    hide Dated, Arrived, ArrivedFrom, Cell;
    var e := Dated(events)[i];
    ArrivedDated(events, sessions[j]);
    assert e.time == e.available == events[i].available;
    CellFresh(Dated(events), sessions, n, j);
  }

  /** On the calendar the panel shows, under its availability date, exactly the last available event while it is
      fresh. */
  lemma PanelRowExactly(events: seq<Observation>, sessions: seq<int>, n: int, j: nat, r: Observation)
    requires Ascending(sessions) && j < |sessions|
    requires forall i, k | 0 <= i < k < |events| :: events[i].available < events[k].available
    requires forall o | o in events :: o.available in sessions
    ensures PanelRow(events, sessions, n, sessions[j]) == Success(Some(r)) <==>
              exists i :: 0 <= i < |events| && ShowsEvent(events, sessions, n, j, i)
                && r == Observation(events[i].asset, events[i].available, events[i].available, events[i].value)
  {
    PanelRowIsCell(events, sessions, n, j);
    forall i | 0 <= i < |events| && ShowsEvent(events, sessions, n, j, i)
      ensures Arrived(Dated(events), sessions[j]) == i + 1
    {
      DatedArrived(events, sessions[j], i);
    }
    var k := Arrived(Dated(events), sessions[j]);
    if k > 0 { DatedCell(events, sessions, n, j, k - 1); }
    hide PanelRow, ArrivedFrom, IndexOf, Ascending;
  }

  /** The provider panel is refused exactly for a date off the calendar, and otherwise shows what the walk shows. Its
      events come sorted, one for each availability date. */
  lemma PanelRowIsSimulation(events: seq<Observation>, sessions: seq<int>, n: int, j: nat)
    requires Ascending(sessions) && j < |sessions|
    requires forall i, k | 0 <= i < k < |events| :: events[i].available < events[k].available
    ensures var row := PanelRow(events, sessions, n, sessions[j]);
      if forall o | o in events :: o.available in sessions
      then row == Success(Simulated(Dated(events), sessions, n, j))
      else row == Failure(OffCalendar)
  {
    if forall o | o in events :: o.available in sessions {
      PanelRowIsCell(events, sessions, n, j);
      CellIsSimulated(Dated(events), sessions, n, j);
    } else {
      var o :| o in events && o.available !in sessions;
      IndexFound(sessions, o.available);
    }
  }
}
