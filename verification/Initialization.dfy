/** Initialising items over date units: a work queue that resumes, skips and splits, and a closing sweep over what it
    completed (items/initialization.py, initialize_many). */
module Initialization {
  import opened Wrappers
  import opened Windows
  import opened UnitGaps
  import opened UnitPartition
  import opened Shelves

  /** A queued unit of work: one window for several items. */
  datatype Unit = Unit(window: Window, names: seq<string>)

  datatype Report =
    | Initialized(pending: map<string, seq<int>>) | Stopped | MemoryFailure | NotCovered | DefinitionChanged

  datatype Step = Continue | Stop | Raise

  // ---------------------------------------------------------------- the queue

  /** How often a day waits for an item. */
  function Entries(queue: seq<Unit>, name: string, day: int): nat {
    if queue == [] then 0 else
      (if queue[0].window.Contains(day) then multiset(queue[0].names)[name] else 0) + Entries(queue[1..], name, day)
  }

  /** A window counts once for each item that still has to go through it. */
  function UnitWeight(w: Window, items: nat): int {
    if items == 0 then 0 else Weight(w) + UnitWeight(w, items - 1)
  }

  function QueueWeight(queue: seq<Unit>): int {
    if queue == [] then 0 else UnitWeight(queue[0].window, |queue[0].names|) + QueueWeight(queue[1..])
  }

  /** What gaps are queued as: single-item units, in order. */
  function ForItem(windows: seq<Window>, name: string): (r: seq<Unit>)
    ensures |r| == |windows|
    ensures forall i | 0 <= i < |windows| :: r[i] == Unit(windows[i], [name])
  {
    if windows == [] then [] else ForItem(windows[..|windows| - 1], name) + [Unit(windows[|windows| - 1], [name])]
  }

  lemma {:induction false} QueueWeightJoins(a: seq<Unit>, b: seq<Unit>)
    ensures QueueWeight(a + b) == QueueWeight(a) + QueueWeight(b)
  {
    if a == [] {
      assert a + b == b;
    } else {
      QueueWeightJoins(a[1..], b);
      assert (a + b)[1..] == a[1..] + b;
    }
  }

  lemma {:induction false} ForItemWeight(windows: seq<Window>, name: string)
    ensures QueueWeight(ForItem(windows, name)) == TotalWeight(windows)
  {
    if windows != [] {
      var init, top := windows[..|windows| - 1], windows[|windows| - 1];
      ForItemWeight(init, name);
      QueueWeightJoins(ForItem(init, name), [Unit(top, [name])]);
      assert UnitWeight(top, 1) == Weight(top) + UnitWeight(top, 0);
    }
  }

  lemma {:induction false} EntriesJoin(a: seq<Unit>, b: seq<Unit>, name: string, day: int)
    ensures Entries(a + b, name, day) == Entries(a, name, day) + Entries(b, name, day)
  {
    if a == [] {
      assert a + b == b;
    } else {
      EntriesJoin(a[1..], b, name, day);
      assert (a + b)[1..] == a[1..] + b;
    }
  }

  lemma {:induction false} ForItemEntries(windows: seq<Window>, item: string, name: string, day: int)
    ensures Entries(ForItem(windows, item), name, day) == if name == item then Times(windows, day) else 0
  {
    if windows != [] {
      var init, top := windows[..|windows| - 1], windows[|windows| - 1];
      ForItemEntries(init, item, name, day);
      EntriesJoin(ForItem(init, item), [Unit(top, [item])], name, day);
    }
  }

  lemma FrontEntries(w: Window, item: string, rest: seq<string>, queue: seq<Unit>, name: string, day: int)
    ensures Entries([Unit(w, [item] + rest)] + queue, name, day) ==
      (if name == item && w.Contains(day) then 1 else 0) + Entries([Unit(w, rest)] + queue, name, day)
  {
    var whole, less := [Unit(w, [item] + rest)] + queue, [Unit(w, rest)] + queue;
    assert whole[1..] == queue && less[1..] == queue;
    assert multiset([item] + rest) == multiset{item} + multiset(rest);
  }

  // ---------------------------------------------------------------- what a run did

  /** One build call of a run. */
  datatype Made = Made(item: string, window: Window, outcome: Outcome)

  /** A finished build that leaves no usable unit. */
  predicate Fruitless(shelf: Shelf, w: Window, outcome: Outcome) { outcome.Finishes() && !Lands(shelf, w, outcome) }

  /** The fruitless build of a window, if it was one. */
  function Lost(shelf: Shelf, w: Window, item: string, outcome: Outcome): (r: seq<Unit>)
    ensures forall u | u in r :: u == Unit(w, [item])
  {
    if Fruitless(shelf, w, outcome) then [Unit(w, [item])] else []
  }

  /** The shelves after some builds. */
  function Replayed(completed: map<string, Shelf>, made: seq<Made>): (r: map<string, Shelf>)
    ensures r.Keys == completed.Keys
  {
    if made == [] then completed else
      var before, m := Replayed(completed, made[..|made| - 1]), made[|made| - 1];
      if m.item in before then before[m.item := After(before[m.item], m.window, m.outcome)] else before
  }

  /** The builds that finished without a usable unit. */
  function Barren(completed: map<string, Shelf>, made: seq<Made>): (r: seq<Unit>)
    ensures forall u | u in r :: |u.names| == 1
  {
    if made == [] then [] else
      var before, m := Replayed(completed, made[..|made| - 1]), made[|made| - 1];
      Barren(completed, made[..|made| - 1])
      + if m.item in before then Lost(before[m.item], m.window, m.item, m.outcome) else []
  }

  /** Every build was of one of the items, inside the range, over a window no usable unit met. */
  ghost predicate Legal(completed: map<string, Shelf>, made: seq<Made>, names: seq<string>, range: Window) {
    made == [] ||
    var init, m := made[..|made| - 1], made[|made| - 1];
    && Legal(completed, init, names, range)
    && m.item in names && m.item in completed && range.first <= m.window.first <= m.window.last <= range.last
    && Untouched(Spans(Replayed(completed, init)[m.item].Usable()), m.window)
  }

  lemma MadeOne(completed: map<string, Shelf>, made: seq<Made>, m: Made)
    requires m.item in completed
    ensures var before := Replayed(completed, made);
      && Replayed(completed, made + [m]) == before[m.item := After(before[m.item], m.window, m.outcome)]
      && Barren(completed, made + [m]) == Barren(completed, made)
           + Lost(before[m.item], m.window, m.item, m.outcome)
  {
    assert (made + [m])[..|made|] == made;
  }

  // ---------------------------------------------------------------- the invariant

  /** Completed windows lie in the range, and no day was completed twice. */
  ghost predicate Tidy(done: seq<Window>, range: Window) {
    done == [] ||
    var init, top := done[..|done| - 1], done[|done| - 1];
    && Tidy(init, range)
    && range.first <= top.first <= top.last <= range.last
    && (forall day | top.Contains(day) :: !Covered(init, day))
  }

  lemma {:induction false} TidyInside(done: seq<Window>, range: Window)
    requires Tidy(done, range)
    ensures forall w | w in done :: range.first <= w.first <= w.last <= range.last
  {
    if done != [] {
      TidyInside(done[..|done| - 1], range);
    }
  }

  /** Queued work lies in the range and names only the run's items. */
  ghost predicate Admissible(queue: seq<Unit>, names: seq<string>, range: Window) {
    forall u | u in queue ::
      && range.first <= u.window.first <= u.window.last <= range.last
      && forall name | name in u.names :: name in names
  }

  ghost predicate Ledger(completed: map<string, Shelf>, names: seq<string>, range: Window) {
    forall name | name in names ::
      name in completed && completed[name].InOrder() && Tidy(Spans(completed[name].Usable()), range)
  }

  /** A day of an item is completed, waits once, or was built once without a usable unit; only a completed day may wait
      as well. */
  ghost predicate Conserved(shelf: Shelf, queue: seq<Unit>, barren: seq<Unit>, name: string, day: int) {
    var waiting, lost := Entries(queue, name, day), Entries(barren, name, day);
    waiting + lost <= 1 && (shelf.Completes(day) || waiting + lost == 1) && (lost == 1 ==> !shelf.Completes(day))
  }

  ghost predicate Sound(completed: map<string, Shelf>, queue: seq<Unit>, barren: seq<Unit>, names: seq<string>,
                        range: Window)
  {
    && Ledger(completed, names, range)
    && Admissible(queue, names, range) && Admissible(barren, names, range)
    && forall name, day | name in names && range.Contains(day) ::
         Conserved(completed[name], queue, barren, name, day)
  }

  /** Replacing the front item's window by the parts it still lacks loses nothing. */
  lemma GapsKeepSound(completed: map<string, Shelf>, w: Window, item: string, rest: seq<string>, queue: seq<Unit>,
                      barren: seq<Unit>, gaps: seq<Window>, names: seq<string>, range: Window)
    requires Sound(completed, [Unit(w, [item] + rest)] + queue, barren, names, range)
    requires item in names && Within(gaps, w) && Apart(gaps)
    requires forall day | w.Contains(day) :: completed[item].Completes(day) || Covered(gaps, day)
    ensures Sound(completed, [Unit(w, rest)] + (ForItem(gaps, item) + queue), barren, names, range)
  {
    var old_, new_ := [Unit(w, [item] + rest)] + queue, [Unit(w, rest)] + (ForItem(gaps, item) + queue);
    FrontAdmissible(w, item, rest, queue, names, range);
    forall u | u in ForItem(gaps, item) ensures u.window in gaps && u.names == [item] {}
    forall name, day | name in names && range.Contains(day)
      ensures Conserved(completed[name], new_, barren, name, day)
    {
      assert Conserved(completed[name], old_, barren, name, day);
      FrontEntries(w, item, rest, queue, name, day);
      GapsEntries(w, item, rest, queue, gaps, name, day);
      TimesCovered(gaps, day);
    }
  }

  lemma GapsEntries(w: Window, item: string, rest: seq<string>, queue: seq<Unit>, gaps: seq<Window>, name: string,
                    day: int)
    ensures Entries([Unit(w, rest)] + (ForItem(gaps, item) + queue), name, day) ==
      Entries([Unit(w, rest)] + queue, name, day) + if name == item then Times(gaps, day) else 0
  {
    EntriesJoin([Unit(w, rest)], ForItem(gaps, item) + queue, name, day);
    EntriesJoin(ForItem(gaps, item), queue, name, day);
    EntriesJoin([Unit(w, rest)], queue, name, day);
    ForItemEntries(gaps, item, name, day);
  }

  lemma FrontAdmissible(w: Window, item: string, rest: seq<string>, queue: seq<Unit>, names: seq<string>, range: Window)
    requires Admissible([Unit(w, [item] + rest)] + queue, names, range)
    ensures range.first <= w.first <= w.last <= range.last && item in names
    ensures Admissible([Unit(w, rest)] + queue, names, range) && Admissible(queue, names, range)
  {
    var front := Unit(w, [item] + rest);
    assert front in [front] + queue;
    assert item in front.names;
    forall u | u in queue ensures u in [front] + queue {}
    forall name | name in rest ensures name in front.names {}
  }

  lemma BuildKeepsTidy(before: Shelf, after: Shelf, unit: Finished, range: Window)
    requires Tidy(Spans(before.Usable()), range) && after.Usable() == before.Usable() + [unit]
    requires range.first <= unit.window.first <= unit.window.last <= range.last
    requires forall day | unit.window.Contains(day) :: !Covered(Spans(before.Usable()), day)
    ensures Spans(after.Usable()) == Spans(before.Usable()) + [unit.window] && Tidy(Spans(after.Usable()), range)
  {
    var spans := Spans(before.Usable());
    SpansAppend(before.Usable(), unit);
    assert (spans + [unit.window])[..|spans|] == spans;
  }

  lemma LedgerStep(completed: map<string, Shelf>, w: Window, item: string, outcome: Outcome, names: seq<string>,
                   range: Window)
    requires Ledger(completed, names, range) && item in names
    requires range.first <= w.first <= w.last <= range.last && Untouched(Spans(completed[item].Usable()), w)
    ensures Ledger(completed[item := After(completed[item], w, outcome)], names, range)
  {
    var shelf := completed[item];
    AfterUsable(shelf, w, outcome);
    if Lands(shelf, w, outcome) {
      forall day | w.Contains(day) ensures !shelf.Completes(day) { UncoveredInside(shelf, w, day); }
      BuildKeepsTidy(shelf, After(shelf, w, outcome), NewUnit(shelf, w, outcome), range);
    }
  }

  lemma DayMoves(shelf: Shelf, w: Window, outcome: Outcome, day: int)
    requires shelf.InOrder() && Untouched(Spans(shelf.Usable()), w) && outcome.Finishes() && w.first <= w.last
    ensures w.Contains(day) ==> !shelf.Completes(day)
    ensures w.Contains(day) ==> (After(shelf, w, outcome).Completes(day) <==> !Fruitless(shelf, w, outcome))
    ensures !w.Contains(day) ==> (After(shelf, w, outcome).Completes(day) <==> shelf.Completes(day))
  {
    AfterCompletes(shelf, w, outcome, day);
    if w.Contains(day) { UncoveredInside(shelf, w, day); }
  }

  lemma BuildConserves(shelf: Shelf, other: Shelf, w: Window, item: string, rest: seq<string>, queue: seq<Unit>,
                       barren: seq<Unit>, outcome: Outcome, name: string, day: int)
    requires shelf.InOrder() && Untouched(Spans(shelf.Usable()), w) && outcome.Finishes() && w.first <= w.last
    requires Conserved(if name == item then shelf else other, [Unit(w, [item] + rest)] + queue, barren, name, day)
    ensures Conserved(if name == item then After(shelf, w, outcome) else other, [Unit(w, rest)] + queue,
                      barren + Lost(shelf, w, item, outcome), name, day)
  {
    FrontEntries(w, item, rest, queue, name, day);
    EntriesJoin(barren, Lost(shelf, w, item, outcome), name, day);
    if name == item { DayMoves(shelf, w, outcome, day); }
  }

  /** A finished build moves the days of its window from the queue to the completed days, or to the fruitless builds. */
  lemma BuildKeepsSound(completed: map<string, Shelf>, w: Window, item: string, rest: seq<string>, queue: seq<Unit>,
                        barren: seq<Unit>, outcome: Outcome, names: seq<string>, range: Window)
    requires Sound(completed, [Unit(w, [item] + rest)] + queue, barren, names, range) && item in names
    requires Untouched(Spans(completed[item].Usable()), w) && outcome.Finishes()
    ensures Sound(completed[item := After(completed[item], w, outcome)], [Unit(w, rest)] + queue,
                  barren + Lost(completed[item], w, item, outcome), names, range)
  {
    hide Conserved, Tidy, After, Untouched;
    var after := completed[item := After(completed[item], w, outcome)];
    FrontAdmissible(w, item, rest, queue, names, range);
    LedgerStep(completed, w, item, outcome, names, range);
    forall name, day | name in names && range.Contains(day)
      ensures Conserved(after[name], [Unit(w, rest)] + queue, barren + Lost(completed[item], w, item, outcome), name,
                        day)
    {
      assert Conserved(completed[name], [Unit(w, [item] + rest)] + queue, barren, name, day);
      BuildConserves(completed[item], completed[name], w, item, rest, queue, barren, outcome, name, day);
    }
  }

  /** A build that did not finish leaves everything to do. */
  lemma UnfinishedKeepsSound(completed: map<string, Shelf>, w: Window, item: string, outcome: Outcome,
                             queue: seq<Unit>, barren: seq<Unit>, names: seq<string>, range: Window)
    requires Sound(completed, queue, barren, names, range) && item in names && !outcome.Finishes()
    requires range.first <= w.first <= w.last <= range.last && Untouched(Spans(completed[item].Usable()), w)
    ensures Sound(completed[item := After(completed[item], w, outcome)], queue, barren, names, range)
  {
    var after := completed[item := After(completed[item], w, outcome)];
    LedgerStep(completed, w, item, outcome, names, range);
    forall name, day | name in names && range.Contains(day)
      ensures Conserved(after[name], queue, barren, name, day)
    {
      assert Conserved(completed[name], queue, barren, name, day);
      AfterCompletes(completed[item], w, outcome, day);
    }
  }

  lemma FrontWeight(w: Window, item: string, rest: seq<string>, queue: seq<Unit>)
    ensures QueueWeight([Unit(w, [item] + rest)] + queue) == Weight(w) + QueueWeight([Unit(w, rest)] + queue)
  {
    var whole, less := Unit(w, [item] + rest), Unit(w, rest);
    assert ([whole] + queue)[1..] == queue && ([less] + queue)[1..] == queue;
  }

  lemma GapsWeight(w: Window, item: string, rest: seq<string>, queue: seq<Unit>, gaps: seq<Window>)
    ensures QueueWeight([Unit(w, rest)] + (ForItem(gaps, item) + queue)) ==
              TotalWeight(gaps) + QueueWeight([Unit(w, rest)] + queue)
  {
    QueueWeightJoins([Unit(w, rest)], ForItem(gaps, item) + queue);
    QueueWeightJoins(ForItem(gaps, item), queue);
    QueueWeightJoins([Unit(w, rest)], queue);
    ForItemWeight(gaps, item);
  }

  lemma DropEmptyFront(completed: map<string, Shelf>, w: Window, queue: seq<Unit>, barren: seq<Unit>,
                       names: seq<string>, range: Window)
    ensures Sound(completed, [Unit(w, [])] + queue, barren, names, range) ==>
      Sound(completed, queue, barren, names, range)
    ensures QueueWeight([Unit(w, [])] + queue) == QueueWeight(queue)
  {
    var whole := [Unit(w, [])] + queue;
    assert whole[1..] == queue;
    if Sound(completed, whole, barren, names, range) {
      forall u | u in queue ensures u in whole {}
      forall name, day | name in names && range.Contains(day)
        ensures Conserved(completed[name], queue, barren, name, day)
      {
        assert Conserved(completed[name], whole, barren, name, day);
      }
    }
  }

  lemma {:induction false} UnitNeverNegative(w: Window, items: nat)
    requires w.first <= w.last
    ensures UnitWeight(w, items) >= items
  {
    if items > 0 { UnitNeverNegative(w, items - 1); }
  }

  lemma {:induction false} QueueNeverNegative(queue: seq<Unit>, names: seq<string>, range: Window)
    requires Admissible(queue, names, range)
    ensures QueueWeight(queue) >= 0
    ensures queue != [] ==> |queue[0].names| <= QueueWeight(queue)
  {
    if queue != [] {
      assert queue[0] in queue;
      UnitNeverNegative(queue[0].window, |queue[0].names|);
      QueueNeverNegative(queue[1..], names, range);
    }
  }

  function Halves(w: Window): seq<Window> {
    var middle := w.first + (w.last - w.first) / 2;
    [Window(w.first, middle), Window(middle + 1, w.last)]
  }

  /** Both halves of a split window, and what they weigh together. */
  lemma HalvesCover(w: Window)
    requires w.first < w.last
    ensures Within(Halves(w), w) && Apart(Halves(w)) && TotalWeight(Halves(w)) < Weight(w)
    ensures forall day | w.Contains(day) :: Covered(Halves(w), day)
  {
    var middle := w.first + (w.last - w.first) / 2;
    var a, b := Window(w.first, middle), Window(middle + 1, w.last);
    TotalWeightLast([a], b);
    TotalWeightLast([], a);
    ApartAppend([], a);
    assert [] + [a] == [a] && [a] + [b] == [a, b];
    ApartAppend([a], b);
    assert a in [a, b] && b in [a, b];
  }

  // ---------------------------------------------------------------- planning the first queue

  predicate NoRepeats(names: seq<string>) {
    forall i, j | 0 <= i < j < |names| :: names[i] != names[j]
  }

  lemma {:induction false} NamedOnce(names: seq<string>)
    requires NoRepeats(names)
    ensures forall name :: multiset(names)[name] == if name in names then 1 else 0
  {
    if names != [] {
      NamedOnce(names[1..]);
      assert names == [names[0]] + names[1..];
      assert forall name :: name in names <==> name == names[0] || name in names[1..];
    }
  }

  function Chosen(names: seq<string>, wanted: set<string>): (r: seq<string>)
    ensures forall name :: name in r <==> name in names && name in wanted
  {
    if names == [] then [] else
      assert forall name :: name in names <==> name == names[0] || name in names[1..];
      (if names[0] in wanted then [names[0]] else []) + Chosen(names[1..], wanted)
  }

  lemma {:induction false} ChosenOnce(names: seq<string>, wanted: set<string>, name: string)
    ensures multiset(Chosen(names, wanted))[name] == if name in wanted then multiset(names)[name] else 0
  {
    if names != [] {
      ChosenOnce(names[1..], wanted, name);
      assert names == [names[0]] + names[1..];
    }
  }

  /** One unit for each window, shared by a group of items. */
  function ForGroup(windows: seq<Window>, group: seq<string>): (r: seq<Unit>)
    ensures forall u :: u in r <==> u.names == group && u.window in windows
  {
    if windows == [] then [] else
      assert forall w :: w in windows <==> w in windows[..|windows| - 1] || w == windows[|windows| - 1];
      ForGroup(windows[..|windows| - 1], group) + [Unit(windows[|windows| - 1], group)]
  }

  lemma {:induction false} GroupEntries(windows: seq<Window>, group: seq<string>, name: string, day: int)
    requires Times(windows, day) <= 1
    ensures Entries(ForGroup(windows, group), name, day) ==
      if Times(windows, day) == 1 then multiset(group)[name] else 0
  {
    if windows != [] {
      var init, top := windows[..|windows| - 1], windows[|windows| - 1];
      GroupEntries(init, group, name, day);
      EntriesJoin(ForGroup(init, group), [Unit(top, group)], name, day);
    }
  }

  /** One whole-range unit for each item of its own. */
  function Alone(names: seq<string>, range: Window): (r: seq<Unit>)
    ensures forall u | u in r :: u.window == range && |u.names| == 1 && u.names[0] in names
  {
    if names == [] then [] else [Unit(range, [names[0]])] + Alone(names[1..], range)
  }

  lemma {:induction false} AloneEntries(names: seq<string>, range: Window, name: string, day: int)
    ensures Entries(Alone(names, range), name, day) == if range.Contains(day) then multiset(names)[name] else 0
  {
    if names != [] {
      AloneEntries(names[1..], range, name, day);
      assert names == [names[0]] + names[1..];
      assert Alone(names, range)[1..] == Alone(names[1..], range);
    }
  }

  /** Month windows for bounded items, then the whole range for small items together and for each other item. */
  function FirstQueue(tiles: seq<Window>, monthly: seq<string>, tiny: seq<string>, others: seq<string>,
                      range: Window): seq<Unit>
  {
    (if monthly != [] then ForGroup(tiles, monthly) else [])
    + (if tiny != [] then [Unit(range, tiny)] else []) + Alone(others, range)
  }

  lemma FirstQueueEntries(tiles: seq<Window>, monthly: seq<string>, tiny: seq<string>, others: seq<string>,
                          range: Window, name: string, day: int)
    requires Times(tiles, day) == 1 && range.Contains(day)
    ensures Entries(FirstQueue(tiles, monthly, tiny, others, range), name, day) ==
      multiset(monthly)[name] + multiset(tiny)[name] + multiset(others)[name]
  {
    var a: seq<Unit> := if monthly != [] then ForGroup(tiles, monthly) else [];
    var b: seq<Unit> := if tiny != [] then [Unit(range, tiny)] else [];
    EntriesJoin(a + b, Alone(others, range), name, day);
    EntriesJoin(a, b, name, day);
    GroupEntries(tiles, monthly, name, day);
    AloneEntries(others, range, name, day);
  }

  lemma FirstQueueAdmissible(tiles: seq<Window>, monthly: seq<string>, tiny: seq<string>, others: seq<string>,
                             range: Window, names: seq<string>)
    requires range.first <= range.last
    requires forall w | w in tiles :: range.first <= w.first <= w.last <= range.last
    requires forall name | name in monthly || name in tiny || name in others :: name in names
    ensures Admissible(FirstQueue(tiles, monthly, tiny, others, range), names, range)
  {}

  /** The queue a run starts with: every day waits exactly once for every item. */
  method Plan(names: seq<string>, bounded: set<string>, small: set<string>, range: Window, days: nat,
              nextMonth: int -> int)
    returns (units: seq<Unit>)
    requires range.first <= range.last && days >= 1 && Months(nextMonth) && NoRepeats(names)
    ensures Admissible(units, names, range)
    ensures forall name, day | name in names && range.Contains(day) :: Entries(units, name, day) == 1
  {
    var apart := set name | name in names && name !in bounded;
    var monthly, tiny, others := Chosen(names, bounded - small), Chosen(names, bounded * small), Chosen(names, apart);
    var tiles := Partition(range.first, range.last, days, nextMonth);
    TilesCover(tiles, range.first, range.last + 1);
    FirstQueueAdmissible(tiles, monthly, tiny, others, range, names);
    units := FirstQueue(tiles, monthly, tiny, others, range);
    forall name, day | name in names && range.Contains(day) ensures Entries(units, name, day) == 1 {
      TilesOnce(tiles, range.first, range.last + 1, day);
      FirstQueueEntries(tiles, monthly, tiny, others, range, name, day);
      NamedOnce(names);
      ChosenOnce(names, bounded - small, name);
      ChosenOnce(names, bounded * small, name);
      ChosenOnce(names, apart, name);
    }
  }

  // ---------------------------------------------------------------- the run

  /** How build calls end, when a run is told to stop and whether its definitions still stand, indexed by the number of
      steps taken before. */
  datatype World = World(build: (nat, string, Window) -> Outcome, stop: nat -> bool, kept: nat -> bool)

  /** A build that ran out of memory and cannot be split. */
  ghost predicate Unsplittable(world: World, bounded: set<string>, t: nat, item: string, w: Window) {
    world.build(t, item, w).OutOfMemory? && (item !in bounded || w.first == w.last)
  }

  ghost predicate StoppedAt(world: World, t: nat, item: string, w: Window) {
    world.stop(t) || world.build(t, item, w).Cancelled?
  }

  /** Nobody asks to stop and no definition changes from one step to before another. */
  ghost predicate Calm(world: World, from: nat, to: nat) {
    forall t | from <= t < to :: world.kept(t) && !world.stop(t)
  }

  ghost predicate StopsWithin(world: World, from: nat, to: nat) {
    exists t :: from <= t < to && world.stop(t)
  }

  ghost predicate ChangesWithin(world: World, from: nat, to: nat) {
    exists t :: from <= t < to && !world.kept(t)
  }

  lemma CalmStep(world: World, from: nat, i: nat, n: nat)
    requires i < n && Calm(world, from, from + i)
    ensures world.kept(from + i) && !world.stop(from + i) ==> Calm(world, from, from + i + 1)
    ensures !world.kept(from + i) ==> ChangesWithin(world, from, from + n)
    ensures world.stop(from + i) ==> StopsWithin(world, from, from + n)
  {}

  lemma StopIsStop(world: World, from: nat, to: nat, w: Window)
    requires StopsWithin(world, from, to)
    ensures exists t, item, v :: StoppedAt(world, t, item, v)
  {
    var t :| from <= t < to && world.stop(t);
    assert StoppedAt(world, t, "", w);
  }

  lemma ChangeIsChange(world: World, from: nat, to: nat)
    requires ChangesWithin(world, from, to)
    ensures exists t :: !world.kept(t)
  {}

  ghost predicate MadeBy(world: World, made: seq<Made>) {
    forall m | m in made :: exists t: nat :: world.build(t, m.item, m.window) == m.outcome
  }

  /** Nothing usable is ever lost. */
  ghost predicate Extends(before: map<string, Shelf>, after: map<string, Shelf>, names: seq<string>) {
    forall name | name in names :: name in before && name in after && before[name].Usable() <= after[name].Usable()
  }

  lemma NoneMade(completed: map<string, Shelf>, names: seq<string>, range: Window)
    requires Ledger(completed, names, range)
    ensures Replayed(completed, []) == completed && Extends(completed, completed, names)
  {}

  lemma LegalLast(completed: map<string, Shelf>, made: seq<Made>, names: seq<string>, range: Window)
    requires Legal(completed, made, names, range) && made != []
    ensures var init, m := made[..|made| - 1], made[|made| - 1];
      && made == init + [m] && Legal(completed, init, names, range)
      && m.item in names && m.item in completed && range.first <= m.window.first <= m.window.last <= range.last
      && Untouched(Spans(Replayed(completed, init)[m.item].Usable()), m.window)
  {
    hide Replayed, Untouched, Spans;
  }

  /** Whatever a run builds, no day is completed twice and every usable unit stays usable. */
  lemma {:induction false} LegalKeeps(completed: map<string, Shelf>, made: seq<Made>, names: seq<string>,
                                      range: Window)
    requires Ledger(completed, names, range) && Legal(completed, made, names, range)
    ensures Ledger(Replayed(completed, made), names, range)
    ensures Extends(completed, Replayed(completed, made), names)
  {
    hide *;
    if made == [] {
      NoneMade(completed, names, range);
    } else {
      var init, m := made[..|made| - 1], made[|made| - 1];
      LegalLast(completed, made, names, range);
      LegalKeeps(completed, init, names, range);
      MadeOne(completed, init, m);
      LedgerStep(Replayed(completed, init), m.window, m.item, m.outcome, names, range);
      ExtendsStep(completed, Replayed(completed, init), m.window, m.item, m.outcome, names, range);
    }
  }

  lemma ExtendsStep(completed: map<string, Shelf>, before: map<string, Shelf>, w: Window, item: string,
                    outcome: Outcome, names: seq<string>, range: Window)
    requires Extends(completed, before, names) && Ledger(before, names, range) && item in names
    requires w.first <= w.last && Untouched(Spans(before[item].Usable()), w)
    ensures Extends(completed, before[item := After(before[item], w, outcome)], names)
  {
    hide *;
    LedgerShelf(before, item, names, range);
    AfterUsable(before[item], w, outcome);
    ExtendsPut(completed, before, item, After(before[item], w, outcome), names);
  }

  lemma LedgerShelf(completed: map<string, Shelf>, name: string, names: seq<string>, range: Window)
    requires Ledger(completed, names, range) && name in names
    ensures name in completed && completed[name].InOrder()
  {
    hide Shelf.Usable, Tidy;
  }

  lemma ExtendsPut(completed: map<string, Shelf>, before: map<string, Shelf>, item: string, shelf: Shelf,
                   names: seq<string>)
    requires Extends(completed, before, names) && item in before && before[item].Usable() <= shelf.Usable()
    ensures Extends(completed, before[item := shelf], names)
  {
    hide Shelf.Usable;
  }

  ghost predicate AllSheltered(completed: map<string, Shelf>, names: seq<string>, range: Window) {
    forall name | name in names :: name in completed && Sheltered(completed[name], range)
  }

  /** If no day starts exposed and only finished builds publish, no build is fruitless. */
  lemma {:induction false} ShelteredRun(completed: map<string, Shelf>, made: seq<Made>, names: seq<string>,
                                        range: Window)
    requires Ledger(completed, names, range) && Legal(completed, made, names, range)
    requires AllSheltered(completed, names, range)
    requires forall m | m in made && !m.outcome.Built? ::
      && !m.outcome.Unchanged?
      && forall rows, row | rows in m.outcome.Published() && row in rows :: !m.window.Contains(row.day)
    ensures Barren(completed, made) == [] && AllSheltered(Replayed(completed, made), names, range)
  {
    hide Tidy, After, Lands, Sheltered, Untouched;
    if made != [] {
      var init, m := made[..|made| - 1], made[|made| - 1];
      ShelteredRun(completed, init, names, range);
      LegalKeeps(completed, init, names, range);
      assert m in made;
      ShelteredStays(Replayed(completed, init)[m.item], m.window, m.outcome, range);
    }
  }

  /** No build of the item over the day finished with something published. */
  ghost predicate Mute(made: seq<Made>, name: string, day: int) {
    forall m | m in made && m.item == name && m.window.Contains(day) ::
      !(m.outcome.Built? && Publishes(m.outcome.Published(), m.window))
  }

  /** A day that starts exposed is never completed by builds that publish nothing over it, in this run or a later
      one. */
  lemma {:induction false} ExposedRun(completed: map<string, Shelf>, made: seq<Made>, names: seq<string>, range: Window,
                                      name: string, day: int)
    requires Ledger(completed, names, range) && Legal(completed, made, names, range) && name in names
    requires Exposed(completed[name], day) && Mute(made, name, day)
    ensures Exposed(Replayed(completed, made)[name], day)
  {
    if made != [] {
      var init, m := made[..|made| - 1], made[|made| - 1];
      assert Mute(init, name, day) by { forall x | x in init ensures x in made {} }
      assert m in made;
      ExposedRun(completed, init, names, range, name, day);
      LegalKeeps(completed, init, names, range);
      if m.item == name { ExposedStays(Replayed(completed, init)[name], m.window, m.outcome, day); }
    }
  }

  /** The shelf of an item while its days are built in order and no new commit is made. */
  ghost predicate BuiltUpTo(shelf: Shelf, stored: Option<Window>, day: int) {
    shelf.commits == [stored] && shelf.InOrder() && forall u | u in shelf.Usable() :: u.window.last < day
  }

  lemma UntouchedAhead(shelf: Shelf, stored: Option<Window>, day: int)
    requires BuiltUpTo(shelf, stored, day)
    ensures Untouched(Spans(shelf.Usable()), Window(day, day))
  {
    forall v | v in Spans(shelf.Usable()) ensures v.last < day {
      var i :| 0 <= i < |shelf.Usable()| && Spans(shelf.Usable())[i] == v;
      assert shelf.Usable()[i] in shelf.Usable();
    }
  }

  lemma DayFruitless(shelf: Shelf, stored: Window, day: int, outcome: Outcome)
    requires BuiltUpTo(shelf, Some(stored), day) && stored.Contains(day) && outcome.Built?
    ensures Fruitless(shelf, Window(day, day), outcome) <==> !Publishes(outcome.publications, Window(day, day))
  {
    hide Publishes;
    assert Meets(shelf.commits[0], Window(day, day)) && shelf.commits[0] in shelf.commits;
  }

  lemma ShelfOfDay(shelf: Shelf, stored: Window, day: int, outcome: Outcome)
    requires BuiltUpTo(shelf, Some(stored), day) && stored.Contains(day) && outcome.Built?
    requires Bounds(outcome.publications, Window(day, day), CHANGED) == []
    ensures BuiltUpTo(After(shelf, Window(day, day), outcome), Some(stored), day + 1)
  {
    UntouchedAhead(shelf, Some(stored), day);
    hide Untouched, Clear, Publishes, Bounds, Lands;
    AfterUsable(shelf, Window(day, day), outcome);
    assert shelf.commits + [] == shelf.commits;
  }

  lemma DayBuilt(completed: map<string, Shelf>, made: seq<Made>, m: Made, stored: Window, day: int)
    requires Legal(completed, made, ["x"], stored) && "x" in completed
    requires BuiltUpTo(Replayed(completed, made)["x"], Some(stored), day) && stored.Contains(day)
    requires m.item == "x" && m.window == Window(day, day) && m.outcome.Built?
    requires Bounds(m.outcome.publications, m.window, CHANGED) == []
    ensures Legal(completed, made + [m], ["x"], stored)
    ensures BuiltUpTo(Replayed(completed, made + [m])["x"], Some(stored), day + 1)
    ensures Barren(completed, made + [m]) ==
      Barren(completed, made) + if Publishes(m.outcome.publications, m.window) then [] else [Unit(m.window, ["x"])]
  {
    hide BuiltUpTo, After, Fruitless, Publishes, Untouched;
    var shelf := Replayed(completed, made)["x"];
    MadeOne(completed, made, m);
    assert (made + [m])[..|made|] == made;
    UntouchedAhead(shelf, Some(stored), day);
    DayFruitless(shelf, stored, day, m.outcome);
    ShelfOfDay(shelf, stored, day, m.outcome);
  }

  lemma NothingBuilt(completed: map<string, Shelf>, stored: Window)
    requires completed == map["x" := Shelf([], [Some(stored)], [])] && stored.first <= stored.last
    ensures Ledger(completed, ["x"], stored) && Legal(completed, [], ["x"], stored) && Barren(completed, []) == []
    ensures BuiltUpTo(Replayed(completed, [])["x"], Some(stored), stored.first)
    ensures forall day | stored.Contains(day) :: Exposed(completed["x"], day)
  {
    var shelf := completed["x"];
    assert shelf.Usable() == [] && Some(stored) == shelf.commits[0];
    forall day | stored.Contains(day) ensures Exposed(shelf, day) {
      assert Some(stored) in shelf.commits && Concerns(Some(stored), day);
    }
  }

  /** A build of one day that publishes a row stored already, or nothing. */
  function DayMade(day: int, row: bool): Made {
    Made("x", Window(day, day), Built([], if row then [[Row(day, false, false)]] else []))
  }

  lemma DayMadeBuilt(completed: map<string, Shelf>, made: seq<Made>, stored: Window, day: int, row: bool)
    requires Legal(completed, made, ["x"], stored) && "x" in completed
    requires BuiltUpTo(Replayed(completed, made)["x"], Some(stored), day) && stored.Contains(day)
    ensures Legal(completed, made + [DayMade(day, row)], ["x"], stored)
    ensures BuiltUpTo(Replayed(completed, made + [DayMade(day, row)])["x"], Some(stored), day + 1)
    ensures Barren(completed, made + [DayMade(day, row)]) ==
      Barren(completed, made) + if row then [] else [Unit(Window(day, day), ["x"])]
  {
    StoredAlready(day, Window(day, day));
    DayBuilt(completed, made, DayMade(day, row), stored, day);
  }

  /** Days 1 to 3 after CancelledBulk: with units of one day, days 1 and 3 publish what is stored already, while day 2
      has nothing to publish, and its unit is not usable. */
  lemma SilentDayIsLost() returns (completed: map<string, Shelf>, made: seq<Made>)
    ensures completed == map["x" := Shelf([], [Some(Window(1, 3))], [])]
    ensures made == [DayMade(1, true), DayMade(2, false), DayMade(3, true)]
    ensures Ledger(completed, ["x"], Window(1, 3)) && Legal(completed, made, ["x"], Window(1, 3))
    ensures Barren(completed, made) == [Unit(Window(2, 2), ["x"])] && Exposed(completed["x"], 2)
  {
    hide Legal, BuiltUpTo, Barren, Replayed, Ledger, Exposed, DayMade;
    var stored := Window(1, 3);
    completed := map["x" := Shelf([], [Some(stored)], [])];
    var a, b, c := DayMade(1, true), DayMade(2, false), DayMade(3, true);
    made := [a, b, c];
    assert [] + [a] == [a] && [a] + [b] == [a, b] && [a, b] + [c] == made;
    NothingBuilt(completed, stored);
    DayMadeBuilt(completed, [], stored, 1, true);
    DayMadeBuilt(completed, [a], stored, 2, false);
    DayMadeBuilt(completed, [a, b], stored, 3, true);
  }

  /** Every day of the range lies in a unit of the item that nothing stored since disturbs, and the certificate carries
      exactly the dates such units left waiting. */
  ghost predicate Certified(completed: map<string, Shelf>, name: string, range: Window,
                            pending: map<string, seq<int>>)
  {
    && name in completed && name in pending
    && var shelf := completed[name];
    && (forall day | range.Contains(day) ::
          exists u :: u in shelf.units && u.window.Contains(day) && Undisturbed(shelf, u))
    && (forall date :: date in pending[name] <==>
          exists u :: u in shelf.units && Undisturbed(shelf, u) && date in u.pending)
  }

  lemma CertifiedIs(completed: map<string, Shelf>, name: string, range: Window, pending: map<string, seq<int>>)
    requires name in completed && name in pending && completed[name].InOrder()
    ensures Certified(completed, name, range, pending) <==>
      Spanned(completed[name].Usable(), range) && PendingOf(pending[name], completed[name].Usable())
  {
    UsableMeans(completed[name]);
    SpansCover(completed[name].Usable());
  }

  /** Some day of the range lies in no unit of some item but in disturbed ones. */
  ghost predicate Uncovered(completed: map<string, Shelf>, names: seq<string>, range: Window) {
    exists name, day :: name in names && name in completed && range.Contains(day)
      && forall u | u in completed[name].units && u.window.Contains(day) :: !Undisturbed(completed[name], u)
  }

  lemma UncoveredIs(completed: map<string, Shelf>, names: seq<string>, range: Window, name: string)
    requires Ledger(completed, names, range) && name in names && !Spanned(completed[name].Usable(), range)
    ensures Uncovered(completed, names, range) && !AllSpanned(completed, names, range)
  {
    UsableMeans(completed[name]);
    SpansCover(completed[name].Usable());
  }

  ghost predicate AllCertified(completed: map<string, Shelf>, names: seq<string>, range: Window,
                               pending: map<string, seq<int>>)
  {
    forall name | name in names :: Certified(completed, name, range, pending)
  }

  lemma NoneCertified(completed: map<string, Shelf>, range: Window)
    ensures AllCertified(completed, [], range, map[])
  {}

  lemma CertifiedStep(completed: map<string, Shelf>, names: seq<string>, i: nat, range: Window,
                      pending: map<string, seq<int>>, dates: seq<int>)
    requires i < |names| && Ledger(completed, names, range) && AllCertified(completed, names[..i], range, pending)
    requires Spanned(completed[names[i]].Usable(), range) && PendingOf(dates, completed[names[i]].Usable())
    ensures AllCertified(completed, names[..i + 1], range, pending[names[i] := dates])
  {
    var name := names[i];
    CertifiedIs(completed, name, range, pending[name := dates]);
    var done := names[..i + 1];
    assert done == names[..i] + [name];
    hide Ledger, Spanned, PendingOf;
    forall n | n in done ensures Certified(completed, n, range, pending[name := dates]) {
      if n != name {
        assert Certified(completed, n, range, pending);
      }
    }
  }

  ghost predicate AllSpanned(completed: map<string, Shelf>, names: seq<string>, range: Window) {
    forall name | name in names :: name in completed && Spanned(completed[name].Usable(), range)
  }

  /** With nothing left in the queue the run is closed exactly when no build was fruitless. */
  lemma KeptCloses(initial: map<string, Shelf>, made: seq<Made>, completed: map<string, Shelf>, names: seq<string>,
                   range: Window)
    requires Kept(initial, made, completed, [], names, range)
    ensures Ledger(completed, names, range)
    ensures Barren(initial, made) == [] <==> AllSpanned(completed, names, range)
  {
    ClosesExactly(completed, Barren(initial, made), names, range);
    hide Recorded, Spanned, Barren;
  }

  lemma TidyUnits(units: seq<Finished>, range: Window)
    requires Tidy(Spans(units), range)
    ensures forall u | u in units :: range.first <= u.window.first <= u.window.last <= range.last
  {
    TidyInside(Spans(units), range);
    forall u | u in units ensures range.first <= u.window.first <= u.window.last <= range.last {
      var i :| 0 <= i < |units| && units[i] == u;
      assert Spans(units)[i] in Spans(units);
    }
  }

  /** So the closing check refuses it, and every later one until a build over the day publishes. */
  lemma ExposedNeverCertified(completed: map<string, Shelf>, made: seq<Made>, names: seq<string>, range: Window,
                              name: string, day: int, pending: map<string, seq<int>>)
    requires Ledger(completed, names, range) && Legal(completed, made, names, range)
    requires name in names && range.Contains(day) && Exposed(completed[name], day) && Mute(made, name, day)
    ensures !AllCertified(Replayed(completed, made), names, range, pending)
    ensures name in Replayed(completed, made) && Exposed(Replayed(completed, made)[name], day)
  {
    ExposedRun(completed, made, names, range, name, day);
    LegalKeeps(completed, made, names, range);
    var after := Replayed(completed, made);
    assert !after[name].Completes(day);
    if name in pending { CertifiedIs(after, name, range, pending); }
    assert !Certified(after, name, range, pending);
  }

  lemma CertifiedSpans(completed: map<string, Shelf>, names: seq<string>, range: Window,
                       pending: map<string, seq<int>>)
    requires AllCertified(completed, names, range, pending) && Ledger(completed, names, range)
    ensures AllSpanned(completed, names, range)
  {
    forall name | name in names ensures name in completed && Spanned(completed[name].Usable(), range) {
      assert Certified(completed, name, range, pending);
      CertifiedIs(completed, name, range, pending);
    }
  }

  lemma ClosingUnits(completed: map<string, Shelf>, names: seq<string>, range: Window, name: string)
    requires Ledger(completed, names, range) && name in names
    ensures var units := completed[name].Usable();
      && (Spanned(units, range) <==> Spanned(Inside(units, range), range))
      && (forall u | u in units :: u.window.first <= u.window.last)
      && (forall u :: u in units <==> u in Inside(units, range))
  {
    var units := completed[name].Usable();
    TidyUnits(units, range);
    SpansCover(units);
    SpansCover(Inside(units, range));
  }

  /** With an empty queue every day is completed exactly when no build was fruitless. */
  lemma ClosesExactly(completed: map<string, Shelf>, barren: seq<Unit>, names: seq<string>, range: Window)
    requires Sound(completed, [], barren, names, range) && forall u | u in barren :: |u.names| == 1
    ensures barren == [] <==> forall name | name in names :: Spanned(completed[name].Usable(), range)
  {
    if barren == [] {
      forall name, day | name in names && range.Contains(day) ensures completed[name].Completes(day) {
        assert Conserved(completed[name], [], barren, name, day);
      }
    } else {
      var u := barren[0];
      assert u in barren && u.names[0] in u.names && u.window.Contains(u.window.first);
      assert range.Contains(u.window.first) && u.names[0] in names;
      assert Conserved(completed[u.names[0]], [], barren, u.names[0], u.window.first);
      assert !completed[u.names[0]].Completes(u.window.first);
    }
  }

  // ---------------------------------------------------------------- what every step keeps

  /** The shelves are what the builds made of the first ones. */
  ghost predicate Recorded(initial: map<string, Shelf>, made: seq<Made>, completed: map<string, Shelf>,
                           names: seq<string>, range: Window)
  {
    Ledger(initial, names, range) && Legal(initial, made, names, range) && completed == Replayed(initial, made)
  }

  /** And with the queue no day is lost but those of fruitless builds. */
  ghost predicate Kept(initial: map<string, Shelf>, made: seq<Made>, completed: map<string, Shelf>, queue: seq<Unit>,
                       names: seq<string>, range: Window)
  {
    && Recorded(initial, made, completed, names, range)
    && Sound(completed, queue, Barren(initial, made), names, range)
  }

  /** What holds of the front item of the queue. */
  lemma KeptFront(initial: map<string, Shelf>, made: seq<Made>, completed: map<string, Shelf>, w: Window,
                  item: string, rest: seq<string>, queue: seq<Unit>, names: seq<string>, range: Window)
    requires Kept(initial, made, completed, [Unit(w, [item] + rest)] + queue, names, range)
    ensures item in names && item in completed && range.first <= w.first <= w.last <= range.last
    ensures completed[item].InOrder()
    ensures forall v | v in Spans(completed[item].Usable()) :: v.first <= v.last
  {
    FrontAdmissible(w, item, rest, queue, names, range);
    TidyInside(Spans(completed[item].Usable()), range);
  }

  lemma KeptRecorded(initial: map<string, Shelf>, made: seq<Made>, completed: map<string, Shelf>, queue: seq<Unit>,
                     names: seq<string>, range: Window)
    requires Kept(initial, made, completed, queue, names, range)
    ensures Recorded(initial, made, completed, names, range) && QueueWeight(queue) >= 0
    ensures queue != [] ==> |queue[0].names| <= QueueWeight(queue)
  {
    QueueNeverNegative(queue, names, range);
  }

  lemma KeptWithoutFront(initial: map<string, Shelf>, made: seq<Made>, completed: map<string, Shelf>, w: Window,
                         queue: seq<Unit>, names: seq<string>, range: Window)
    requires Kept(initial, made, completed, [Unit(w, [])] + queue, names, range)
    ensures Kept(initial, made, completed, queue, names, range)
    ensures QueueWeight([Unit(w, [])] + queue) == QueueWeight(queue)
  {
    DropEmptyFront(completed, w, queue, Barren(initial, made), names, range);
  }

  lemma GapsAreKept(initial: map<string, Shelf>, made: seq<Made>, completed: map<string, Shelf>, w: Window,
                    item: string, rest: seq<string>, queue: seq<Unit>, gaps: seq<Window>, names: seq<string>,
                    range: Window)
    requires Kept(initial, made, completed, [Unit(w, [item] + rest)] + queue, names, range)
    requires item in names && item in completed && Within(gaps, w) && Apart(gaps)
    requires forall day | w.Contains(day) :: completed[item].Completes(day) || Covered(gaps, day)
    ensures Kept(initial, made, completed, [Unit(w, rest)] + (ForItem(gaps, item) + queue), names, range)
    ensures QueueWeight([Unit(w, rest)] + (ForItem(gaps, item) + queue)) ==
      QueueWeight([Unit(w, [item] + rest)] + queue) - Weight(w) + TotalWeight(gaps)
  {
    FrontWeight(w, item, rest, queue);
    GapsKeepSound(completed, w, item, rest, queue, Barren(initial, made), gaps, names, range);
    GapsWeight(w, item, rest, queue, gaps);
  }

  lemma BuildIsKept(initial: map<string, Shelf>, made: seq<Made>, completed: map<string, Shelf>, w: Window,
                    item: string, rest: seq<string>, queue: seq<Unit>, outcome: Outcome, names: seq<string>,
                    range: Window)
    requires Kept(initial, made, completed, [Unit(w, [item] + rest)] + queue, names, range)
    requires item in names && item in completed && Untouched(Spans(completed[item].Usable()), w)
    ensures Kept(initial, made + [Made(item, w, outcome)], completed[item := After(completed[item], w, outcome)],
                 [Unit(w, if outcome.Finishes() then rest else [item] + rest)] + queue, names, range)
  {
    var m, barren := Made(item, w, outcome), Barren(initial, made);
    FrontAdmissible(w, item, rest, queue, names, range);
    MadeOne(initial, made, m);
    assert (made + [m])[..|made|] == made;
    if outcome.Finishes() {
      BuildKeepsSound(completed, w, item, rest, queue, barren, outcome, names, range);
    } else {
      UnfinishedKeepsSound(completed, w, item, outcome, [Unit(w, [item] + rest)] + queue, barren, names, range);
      assert barren + [] == barren;
    }
  }

  /** What a step makes: one build, unless it was told to stop or a day of the window was completed. */
  ghost function StepBuild(world: World, t: nat, shelf: Shelf, w: Window, item: string): seq<Made> {
    if !world.stop(t) && forall day | w.Contains(day) :: !shelf.Completes(day)
    then [Made(item, w, world.build(t, item, w))] else []
  }

  lemma UntouchedIs(shelf: Shelf, w: Window)
    requires shelf.InOrder() && w.first <= w.last
    ensures Untouched(Spans(shelf.Usable()), w) <==> forall day | w.Contains(day) :: !shelf.Completes(day)
  {
    if Untouched(Spans(shelf.Usable()), w) {
      forall day | w.Contains(day) ensures !shelf.Completes(day) { UncoveredInside(shelf, w, day); }
    } else {
      var v :| v in Spans(shelf.Usable()) && Overlaps(v, w);
      var i :| 0 <= i < |shelf.Usable()| && Spans(shelf.Usable())[i] == v;
      assert shelf.Usable()[i] in shelf.Usable() && v.first <= v.last;
      var day := if v.first < w.first then w.first else v.first;
      assert v.Contains(day) && shelf.Completes(day) && w.Contains(day);
    }
  }

  lemma MadeByGrows(world: World, made: seq<Made>, t: nat, shelf: Shelf, w: Window, item: string)
    requires MadeBy(world, made)
    ensures MadeBy(world, made + StepBuild(world, t, shelf, w, item))
  {
    var more := StepBuild(world, t, shelf, w, item);
    forall m | m in made + more ensures exists t: nat :: world.build(t, m.item, m.window) == m.outcome {
      if m in more { assert world.build(t, m.item, m.window) == m.outcome; }
    }
  }

  /** What is left of a unit from its i-th item on. */
  ghost function From(unit: Unit, i: nat): Unit
    requires i <= |unit.names|
  {
    Unit(unit.window, unit.names[i..])
  }

  class Run {
    const names: seq<string>
    const bounded: set<string>
    const range: Window
    var units: seq<Unit>
    var completed: map<string, Shelf>
    var steps: nat
    ghost const initial: map<string, Shelf>
    ghost var made: seq<Made>

    ghost predicate Documented()
      reads this
    {
      Recorded(initial, made, completed, names, range)
    }

    /** The invariant with the part of the current unit that is still to do put in front of the queue. */
    ghost predicate ValidWith(front: seq<Unit>)
      reads this
    {
      Kept(initial, made, completed, front + units, names, range)
    }

    constructor (names: seq<string>, bounded: set<string>, range: Window, completed: map<string, Shelf>,
                 units: seq<Unit>)
      requires Sound(completed, units, [], names, range)
      ensures this.names == names && this.bounded == bounded && this.range == range
      ensures this.completed == completed && this.units == units && steps == 0
      ensures initial == completed && made == []
      ensures ValidWith([])
    {
      this.names, this.bounded, this.range := names, bounded, range;
      this.completed, this.units, this.steps := completed, units, 0;
      this.initial, this.made := completed, [];
      new;
      assert [] + units == units;
    }

    /** Puts windows for one item at the front of the queue, keeping their order. */
    method PushFront(windows: seq<Window>, item: string)
      modifies `units
      ensures units == ForItem(windows, item) + old(units)
    {
      var i := |windows|;
      assert windows[i..] == [];
      while i > 0
        invariant 0 <= i <= |windows|
        invariant units == ForItem(windows[i..], item) + old(units)
      {
        i := i - 1;
        ghost var a, b := ForItem(windows[i..], item), ForItem(windows[i + 1..], item);
        assert a == [Unit(windows[i], [item])] + b;
        units := [Unit(windows[i], [item])] + units;
      }
      assert windows[0..] == windows;
    }

    /** Queues what the front window still lacks for an item, ahead of everything else. */
    method Requeue(w: Window, item: string, ghost rest: seq<string>, windows: seq<Window>)
      requires ValidWith([Unit(w, [item] + rest)]) && item in names && Within(windows, w) && Apart(windows)
      requires item in completed
      requires forall day | w.Contains(day) :: completed[item].Completes(day) || Covered(windows, day)
      requires TotalWeight(windows) < Weight(w)
      modifies `units
      ensures ValidWith([Unit(w, rest)])
      ensures QueueWeight([Unit(w, rest)] + units) < QueueWeight([Unit(w, [item] + rest)] + old(units))
    {
      hide Kept;
      GapsAreKept(initial, made, completed, w, item, rest, units, windows, names, range);
      PushFront(windows, item);
    }

    /** Queues the two halves of the front window. */
    method Split(w: Window, item: string, ghost rest: seq<string>)
      requires ValidWith([Unit(w, [item] + rest)]) && item in names && item in completed && w.first < w.last
      modifies `units
      ensures ValidWith([Unit(w, rest)])
      ensures QueueWeight([Unit(w, rest)] + units) < QueueWeight([Unit(w, [item] + rest)] + old(units))
    {
      hide Kept;
      HalvesCover(w);
      Requeue(w, item, rest, Halves(w));
    }

    /** Stores what a build of an untouched window published, and its unit if it finished. */
    method Store(w: Window, item: string, ghost rest: seq<string>, outcome: Outcome)
      requires ValidWith([Unit(w, [item] + rest)]) && item in names && item in completed
      requires range.first <= w.first <= w.last <= range.last
      requires Untouched(Spans(completed[item].Usable()), w)
      modifies `completed, `made
      ensures made == old(made) + [Made(item, w, outcome)]
      ensures completed == old(completed)[item := After(old(completed)[item], w, outcome)]
      ensures ValidWith([Unit(w, if outcome.Finishes() then rest else [item] + rest)])
    {
      hide Kept;
      BuildIsKept(initial, made, completed, w, item, rest, units, outcome, names, range);
      completed := completed[item := After(completed[item], w, outcome)];
      made := made + [Made(item, w, outcome)];
    }

    /** One item of the current unit: skip what is done, or build, or split, or give up. */
    method Process(w: Window, item: string, ghost rest: seq<string>, world: World) returns (step: Step)
      requires ValidWith([Unit(w, [item] + rest)])
      modifies `units, `completed, `steps, `made
      ensures steps == old(steps) + 1
      ensures item in old(completed) && made == old(made) + StepBuild(world, old(steps), old(completed)[item], w, item)
      ensures Documented()
      ensures step.Continue? ==> ValidWith([Unit(w, rest)])
      ensures step.Continue? ==>
        QueueWeight([Unit(w, rest)] + units) < QueueWeight([Unit(w, [item] + rest)] + old(units))
      ensures step.Raise? ==> Unsplittable(world, bounded, old(steps), item, w)
      ensures step.Stop? ==> StoppedAt(world, old(steps), item, w)
    {
      hide Kept, Recorded;
      KeptFront(initial, made, completed, w, item, rest, units, names, range);
      steps := steps + 1;
      if world.stop(steps - 1) {
        KeptRecorded(initial, made, completed, [Unit(w, [item] + rest)] + units, names, range);
        return Stop;
      }
      UntouchedIs(completed[item], w);
      var gaps := Gaps(w, Spans(completed[item].Usable()));
      if gaps != [w] {
        Requeue(w, item, rest, gaps);
        KeptRecorded(initial, made, completed, [Unit(w, rest)] + units, names, range);
        return Continue;
      }
      var outcome := world.build(steps - 1, item, w);
      Store(w, item, rest, outcome);
      KeptRecorded(initial, made, completed, [Unit(w, if outcome.Finishes() then rest else [item] + rest)] + units,
                   names, range);
      match outcome
      case Built(_, _) =>
        FrontWeight(w, item, rest, units);
        return Continue;
      case Unchanged =>
        FrontWeight(w, item, rest, units);
        return Continue;
      case OutOfMemory(_) =>
        if item !in bounded || w.first == w.last { return Raise; }
        Split(w, item, rest);
        return Continue;
      case Cancelled(_) =>
        return Stop;
    }

    /** The i-th item of a unit, with the items after it still to do. */
    method VisitOne(unit: Unit, i: nat, world: World) returns (step: Step)
      requires i < |unit.names| && ValidWith([From(unit, i)])
      modifies `units, `completed, `steps, `made
      ensures steps == old(steps) + 1
      ensures Documented() && (MadeBy(world, old(made)) ==> MadeBy(world, made))
      ensures step.Continue? ==> ValidWith([From(unit, i + 1)])
      ensures step.Continue? ==> QueueWeight([From(unit, i + 1)] + units) < QueueWeight([From(unit, i)] + old(units))
      ensures step.Raise? ==> exists t, item, w :: Unsplittable(world, bounded, t, item, w)
      ensures step.Stop? ==> exists t, item, w :: StoppedAt(world, t, item, w)
    {
      hide Kept, Recorded;
      assert unit.names[i..] == [unit.names[i]] + unit.names[i + 1..];
      step := Process(unit.window, unit.names[i], unit.names[i + 1..], world);
      if MadeBy(world, old(made)) {
        MadeByGrows(world, old(made), old(steps), old(completed)[unit.names[i]], unit.window, unit.names[i]);
      }
    }

    /** One unit taken off the queue, item by item. */
    method Visit(unit: Unit, world: World) returns (step: Step)
      requires ValidWith([unit])
      modifies `units, `completed, `steps, `made
      ensures Documented() && (MadeBy(world, old(made)) ==> MadeBy(world, made))
      ensures steps - old(steps) <= |unit.names|
      ensures step.Continue? ==> ValidWith([])
      ensures step.Continue? ==> steps - old(steps) == |unit.names|
      ensures unit.names == [] ==> units == old(units)
      ensures step.Continue? ==> QueueWeight(units) + |unit.names| <= QueueWeight([unit] + old(units))
      ensures step.Raise? ==> exists t, item, w :: Unsplittable(world, bounded, t, item, w)
      ensures step.Stop? ==> exists t, item, w :: StoppedAt(world, t, item, w)
    {
      hide Kept, Recorded;
      var i := 0;
      assert From(unit, 0) == unit;
      while i < |unit.names|
        invariant i <= |unit.names| && steps == old(steps) + i
        invariant ValidWith([From(unit, i)]) && (MadeBy(world, old(made)) ==> MadeBy(world, made))
        invariant i == 0 ==> units == old(units)
        invariant QueueWeight([From(unit, i)] + units) + i <= QueueWeight([unit] + old(units))
      {
        step := VisitOne(unit, i, world);
        i := i + 1;
        if step != Continue { return; }
      }
      assert From(unit, i) == Unit(unit.window, []);
      KeptWithoutFront(initial, made, completed, unit.window, units, names, range);
      KeptRecorded(initial, made, completed, units, names, range);
      assert [] + units == units;
      return Continue;
    }

    /** The main loop: every unit in turn until the queue is empty or a unit ends the run. */
    method Drain(world: World) returns (step: Step)
      requires ValidWith([])
      modifies `units, `completed, `steps, `made
      ensures Documented() && (MadeBy(world, old(made)) ==> MadeBy(world, made))
      ensures steps - old(steps) <= old(QueueWeight(units))
      ensures step.Continue? ==> ValidWith([]) && units == []
      ensures step.Raise? ==> exists t, item, w :: Unsplittable(world, bounded, t, item, w)
      ensures step.Stop? ==> exists t, item, w :: StoppedAt(world, t, item, w)
    {
      hide Kept, Recorded;
      assert [] + units == units;
      KeptRecorded(initial, made, completed, units, names, range);
      while units != []
        invariant ValidWith([]) && Documented() && (MadeBy(world, old(made)) ==> MadeBy(world, made))
        invariant QueueWeight(units) >= 0
        invariant steps - old(steps) + QueueWeight(units) <= old(QueueWeight(units))
        decreases QueueWeight(units), |units|
      {
        var unit := units[0];
        assert [] + units == [unit] + units[1..];
        assert units == [unit] + units[1..];
        KeptRecorded(initial, made, completed, units, names, range);
        units := units[1..];
        step := Visit(unit, world);
        if step != Continue { return; }
        assert [] + units == units;
        KeptRecorded(initial, made, completed, units, names, range);
      }
      return Continue;
    }

    /** The closing check of every item. Unless it is interrupted or finds a changed definition, it fails exactly when
        a build of the run was fruitless. */
    method Finish(world: World) returns (r: Report)
      requires range.first <= range.last && ValidWith([]) && units == []
      ensures !r.MemoryFailure?
      ensures r.Stopped? ==> StopsWithin(world, steps, steps + |names|)
      ensures r.DefinitionChanged? ==> ChangesWithin(world, steps, steps + |names|)
      ensures r.Initialized? ==> Calm(world, steps, steps + |names|)
      ensures r.Initialized? ==> AllCertified(completed, names, range, r.pending)
      ensures r.NotCovered? ==> Uncovered(completed, names, range)
      ensures r.Initialized? || r.NotCovered? ==> (r.NotCovered? <==> Barren(initial, made) != [])
    {
      assert [] + units == [];
      KeptCloses(initial, made, completed, names, range);
      NoneCertified(completed, range);
      assert Closing(world, 0, map[]);
      hide *;
      var pending: map<string, seq<int>> := map[];
      for i := 0 to |names|
        invariant Closing(world, i, pending)
      {
        var failed;
        failed, pending := CloseItem(world, i, pending);
        if failed.Some? { return failed.value; }
      }
      AllClosed(world, pending);
      return Initialized(pending);
    }

    /** The first i items are certified, and nobody intervened. */
    ghost predicate Closing(world: World, i: nat, pending: map<string, seq<int>>)
      reads this
    {
      i <= |names| && AllCertified(completed, names[..i], range, pending) && Calm(world, steps, steps + i)
    }

    lemma AllClosed(world: World, pending: map<string, seq<int>>)
      requires Closing(world, |names|, pending) && Ledger(completed, names, range)
      ensures AllCertified(completed, names, range, pending) && AllSpanned(completed, names, range)
      ensures Calm(world, steps, steps + |names|)
    {
      assert names[..|names|] == names;
      CertifiedSpans(completed, names, range, pending);
    }

    /** The closing check of one item. */
    method CloseItem(world: World, i: nat, pending: map<string, seq<int>>)
      returns (failed: Option<Report>, after: map<string, seq<int>>)
      requires range.first <= range.last && Ledger(completed, names, range)
      requires i < |names| && Closing(world, i, pending)
      ensures failed.None? ==> Closing(world, i + 1, after)
      ensures failed.Some? ==> failed.value in {DefinitionChanged, Stopped, NotCovered}
      ensures failed == Some(DefinitionChanged) ==> ChangesWithin(world, steps, steps + |names|)
      ensures failed == Some(Stopped) ==> StopsWithin(world, steps, steps + |names|)
      ensures failed == Some(NotCovered) ==>
        Uncovered(completed, names, range) && !AllSpanned(completed, names, range)
    {
      after := pending;
      CalmStep(world, steps, i, |names|);
      hide Calm, AllCertified, Uncovered, AllSpanned, ChangesWithin, StopsWithin, Ledger, Spanned, PendingOf;
      if !world.kept(steps + i) { return Some(DefinitionChanged), after; }
      if world.stop(steps + i) { return Some(Stopped), after; }
      var dates := Certify(names[i]);
      if dates.None? {
        UncoveredIs(completed, names, range, names[i]);
        return Some(NotCovered), after;
      }
      CertifiedStep(completed, names, i, range, pending, dates.value);
      return None, pending[names[i] := dates.value];
    }

    method Certify(name: string) returns (dates: Option<seq<int>>)
      requires range.first <= range.last && Ledger(completed, names, range) && name in names
      ensures dates.Some? <==> Spanned(completed[name].Usable(), range)
      ensures dates.Some? ==> PendingOf(dates.value, completed[name].Usable())
    {
      ClosingUnits(completed, names, range, name);
      dates := Close(completed[name].Usable(), range);
    }

    /** A whole run. It ends, within as many steps as the first queue weighs. When it reports success every day of the
        range is completed for every item; its closing check fails exactly when one of its builds was fruitless. */
    method Execute(world: World) returns (r: Report)
      requires range.first <= range.last && ValidWith([])
      modifies `units, `completed, `steps, `made
      ensures Documented() && (MadeBy(world, old(made)) ==> MadeBy(world, made))
      ensures steps - old(steps) <= old(QueueWeight(units))
      ensures r.Initialized? ==> AllCertified(completed, names, range, r.pending)
      ensures r.Initialized? ==> Calm(world, steps, steps + |names|)
      ensures r.NotCovered? ==> Uncovered(completed, names, range)
      ensures r.Initialized? || r.NotCovered? ==> (r.NotCovered? <==> Barren(initial, made) != [])
      ensures r.MemoryFailure? ==> exists t, item, w :: Unsplittable(world, bounded, t, item, w)
      ensures r.Stopped? ==> exists t, item, w :: StoppedAt(world, t, item, w)
      ensures r.DefinitionChanged? ==> exists t :: !world.kept(t)
    {
      hide Kept, Recorded, AllCertified, Uncovered, MadeBy, Barren, QueueWeight, Unsplittable, StoppedAt, Calm;
      hide StopsWithin, ChangesWithin;
      var step := Drain(world);
      match step
      case Stop => return Stopped;
      case Raise => return MemoryFailure;
      case Continue =>
        r := Finish(world);
        if r.Stopped? {
          StopIsStop(world, steps, steps + |names|, range);
        }
        if r.DefinitionChanged? {
          ChangeIsChange(world, steps, steps + |names|);
        }
    }
  }

  lemma PlannedIsSound(completed: map<string, Shelf>, units: seq<Unit>, names: seq<string>, range: Window)
    requires Ledger(completed, names, range) && Admissible(units, names, range)
    requires forall name, day | name in names && range.Contains(day) :: Entries(units, name, day) == 1
    ensures Sound(completed, units, [], names, range)
  {
    forall name, day | name in names && range.Contains(day)
      ensures Conserved(completed[name], units, [], name, day)
    {}
  }

  datatype Error = BadNames | EndPrecedesStart | RangeFixed | PolicyChanged

  /** What an earlier run fixed for an item: its range, and whether definition and producer policy are still its own. */
  datatype Fixed = Fixed(range: Window, definitionKept: bool, policyKept: bool)

  /** Why an initialisation is not even begun. */
  function Refused(names: seq<string>, range: Window, fixed: map<string, Fixed>): Option<Error> {
    if names == [] || !NoRepeats(names) then Some(BadNames)
    else if range.last < range.first then Some(EndPrecedesStart)
    else if exists name | name in names ::
              name in fixed && (fixed[name].range != range || !fixed[name].definitionKept) then Some(RangeFixed)
    else if exists name | name in names :: name in fixed && !fixed[name].policyKept then Some(PolicyChanged)
    else None
  }

  /** What speaks against beginning. */
  ghost predicate Objection(error: Error, names: seq<string>, range: Window, fixed: map<string, Fixed>) {
    match error
    case BadNames => names == [] || exists i, j :: 0 <= i < j < |names| && names[i] == names[j]
    case EndPrecedesStart => range.first > range.last
    case RangeFixed =>
      exists item: (string, Fixed) ::
        item in fixed.Items && item.0 in names && (item.1.range != range || !item.1.definitionKept)
    case PolicyChanged =>
      exists item: (string, Fixed) :: item in fixed.Items && item.0 in names && !item.1.policyKept
  }

  /** The objections in the order in which they are raised. */
  const OBJECTIONS := [BadNames, EndPrecedesStart, RangeFixed, PolicyChanged]

  /** The first objection is raised. */
  lemma RefusedFirst(names: seq<string>, range: Window, fixed: map<string, Fixed>)
    ensures match Refused(names, range, fixed)
      case None => forall error :: !Objection(error, names, range, fixed)
      case Some(e) =>
        exists k :: 0 <= k < 4 && OBJECTIONS[k] == e && Objection(e, names, range, fixed)
          && forall j | 0 <= j < k :: !Objection(OBJECTIONS[j], names, range, fixed)
  {
    var k := match Refused(names, range, fixed)
      case None => 0
      case Some(BadNames) => 0
      case Some(EndPrecedesStart) => 1
      case Some(RangeFixed) => 2
      case Some(PolicyChanged) => 3;
    assert NoRepeats(names) <==> !exists i, j :: 0 <= i < j < |names| && names[i] == names[j];
    forall name | name in names && name in fixed ensures (name, fixed[name]) in fixed.Items {}
    assert Refused(names, range, fixed).Some? ==> OBJECTIONS[k] == Refused(names, range, fixed).value;
  }

  /** A first or a resumed initialisation, from whatever earlier runs completed to the closing check. */
  method InitializeMany(names: seq<string>, bounded: set<string>, small: set<string>, range: Window, days: nat,
                        nextMonth: int -> int, fixed: map<string, Fixed>, completed: map<string, Shelf>, world: World)
    returns (r: Result<Report, Error>, after: map<string, Shelf>, ghost made: seq<Made>)
    requires days >= 1 && Months(nextMonth) && Ledger(completed, names, range)
    ensures r.Success? ==> forall error :: !Objection(error, names, range, fixed)
    ensures r.Failure? ==>
      exists k :: 0 <= k < 4 && OBJECTIONS[k] == r.error && Objection(r.error, names, range, fixed)
        && forall j | 0 <= j < k :: !Objection(OBJECTIONS[j], names, range, fixed)
    ensures Legal(completed, made, names, range) && MadeBy(world, made) && after == Replayed(completed, made)
    ensures Ledger(after, names, range) && Extends(completed, after, names)
    ensures r.Success? && r.value.Initialized? ==> AllCertified(after, names, range, r.value.pending)
    ensures r.Success? && r.value.NotCovered? ==> Uncovered(after, names, range)
    ensures r.Success? && (r.value.Initialized? || r.value.NotCovered?) ==>
      (r.value.NotCovered? <==> Barren(completed, made) != [])
    ensures r.Success? && r.value.MemoryFailure? ==> exists t, item, w :: Unsplittable(world, bounded, t, item, w)
    ensures r.Success? && r.value.Stopped? ==> exists t, item, w :: StoppedAt(world, t, item, w)
    ensures r.Success? && r.value.DefinitionChanged? ==> exists t :: !world.kept(t)
  {
    made := [];
    LegalKeeps(completed, made, names, range);
    var refused := Refused(names, range, fixed);
    RefusedFirst(names, range, fixed);
    hide Objection;
    if refused.Some? { return Failure(refused.value), completed, made; }
    var units := Plan(names, bounded, small, range, days, nextMonth);
    PlannedIsSound(completed, units, names, range);
    var run := new Run(names, bounded, range, completed, units);
    var report := run.Execute(world);
    LegalKeeps(completed, run.made, names, range);
    return Success(report), run.completed, run.made;
  }
}
