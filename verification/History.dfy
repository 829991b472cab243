/** Finite observation history over an admitted calendar: impact of a change and the read halo
    (items/incremental.py and items/api.py, _build). */
module History {
  import opened Calendars

  /** The index of the last calendar day on or before a day; -1 before the calendar. */
  function LastIndex(calendar: seq<int>, day: int): int {
    BisectRight(calendar, day) - 1
  }

  /** The earliest observation an output of this day may read: h calendar days before its own. */
  function ReadsFrom(calendar: seq<int>, history: nat, day: int): int
    requires calendar != []
  {
    var from := LastIndex(calendar, day) - history;
    calendar[if from < 0 then 0 else if from < |calendar| then from else |calendar| - 1]
  }

  /** Whether an output of this day may read observations of a date. */
  predicate Reads(calendar: seq<int>, history: nat, day: int, observed: int) {
    calendar != [] && ReadsFrom(calendar, history, day) <= observed <= day
  }

  /** The last output day the planner rebuilds for a change ending at a date. An empty calendar without
      history has no such day: the source's indexing raises. */
  function AffectedEnd(calendar: seq<int>, history: nat, last: int, end: int): int
    requires calendar != [] || history > 0
  {
    var position := LastIndex(calendar, last) + history;
    if position < |calendar| then
      var affected := calendar[if position < 0 then 0 else position];
      if affected < end then affected else end
    else end
  }

  /** The first input day a build starting at a day reads. */
  function ReadStart(calendar: seq<int>, history: nat, start: int): int {
    var n := BisectLeft(calendar, start);
    if n == 0 then start else if n > history then calendar[n - (history + 1)] else calendar[0]
  }

  /** With k calendar days before its start a build reads from the day history + 1 places back, from the first calendar
      day if there are not so many, and from its start if there are none. */
  lemma ReadStartByIndex(calendar: seq<int>, history: nat, start: int, k: nat)
    requires k <= |calendar| && (forall i | 0 <= i < k :: calendar[i] < start)
    requires forall i | k <= i < |calendar| :: start <= calendar[i]
    requires Ascending(calendar)
    ensures k == 0 ==> ReadStart(calendar, history, start) == start
    ensures 0 < k <= history ==> ReadStart(calendar, history, start) == calendar[0]
    ensures history < k ==> ReadStart(calendar, history, start) == calendar[k - 1 - history]
  {
    BisectExact(calendar, start, k);
  }

  lemma IndexOrder(calendar: seq<int>, a: int, b: int)
    requires Ascending(calendar) && a <= b
    ensures LastIndex(calendar, a) <= LastIndex(calendar, b)
  {
    BisectMonotone(a, b, calendar);
  }

  /** A day whose last calendar day is the k-th reads what was observed by it, back to the calendar day h places before
      the k-th or to the first one; a day before the calendar reads nothing. */
  lemma ReadsByIndex(calendar: seq<int>, history: nat, day: int, k: nat, observed: int)
    requires Ascending(calendar) && k < |calendar| && calendar[k] <= day
    requires k + 1 < |calendar| ==> day < calendar[k + 1]
    ensures Reads(calendar, history, day, observed) <==>
      observed <= day && (if k >= history then calendar[k - history] <= observed else calendar[0] <= observed)
    ensures forall early | early < calendar[0] :: !Reads(calendar, history, early, observed)
  {
    IndexOrder(calendar, calendar[k], day);
    BisectAtIndex(calendar, k);
    assert BisectRight(calendar, day) == k + 1;
    forall early | early < calendar[0] ensures !Reads(calendar, history, early, observed) {
      IndexOrder(calendar, early, calendar[0]);
      BisectAtIndex(calendar, 0);
      assert BisectRight(calendar, early) == 0;
    }
  }

  /** An output day reaches back to a changed date exactly when the day after history-many calendar
      days past the change has not come. */
  lemma ReachExact(calendar: seq<int>, history: nat, last: int, day: int)
    requires Ascending(calendar) && calendar != [] && calendar[0] <= last && calendar[0] <= day
    ensures ReadsFrom(calendar, history, day) <= last <==>
      var next := LastIndex(calendar, last) + history + 1;
      next >= |calendar| || day < calendar[next]
  {
    var j, p := LastIndex(calendar, day), LastIndex(calendar, last);
    var next := p + history + 1;
    assert 0 <= j < |calendar| && 0 <= p < |calendar|;
    if next < |calendar| {
      assert day < calendar[next] <==> j < next by {
        if j >= next { assert calendar[next] <= calendar[j]; }
      }
    }
    var from := if j - history < 0 then 0 else j - history;
    assert ReadsFrom(calendar, history, day) == calendar[from];
    assert calendar[from] <= last <==> from <= p by {
      if from > p { assert calendar[p + 1] <= calendar[from]; }
      if from <= p { assert calendar[from] <= calendar[p]; }
    }
  }

  /** No calendar day after the affected end reads a changed observation. */
  lemma ImpactStopsAtAffectedEnd(calendar: seq<int>, history: nat, last: int, end: int, day: int, observed: int)
    requires Ascending(calendar) && day in calendar && AffectedEnd(calendar, history, last, end) < day <= end
    requires observed <= last
    ensures !Reads(calendar, history, day, observed)
  {
    var j :| 0 <= j < |calendar| && calendar[j] == day;
    BisectAtIndex(calendar, j);
    var position := LastIndex(calendar, last) + history;
    assert position < |calendar|;
    if position < 0 {
      assert calendar[0] > last;
    } else {
      assert position < j;
      var p := LastIndex(calendar, last);
      assert last < calendar[p + 1] <= calendar[j - history];
    }
  }

  /** The affected end is tight: when it is a calendar day it still reads the change's last date or later. */
  lemma AffectedEndIsReached(calendar: seq<int>, history: nat, last: int, end: int)
    requires Ascending(calendar) && calendar != [] && calendar[0] <= last
    requires LastIndex(calendar, last) + history < |calendar|
    ensures ReadsFrom(calendar, history, calendar[LastIndex(calendar, last) + history]) <= last
  {
    var p := LastIndex(calendar, last);
    BisectAtIndex(calendar, p + history);
  }

  /** A day after the affected end that the change no longer reaches: the day has come to the next calendar day but
      history-many after the change, or nothing on the calendar lies on or before the change. */
  predicate OutOfReach(calendar: seq<int>, history: nat, last: int, day: int) {
    || calendar == [] || last < calendar[0]
    || (var next := LastIndex(calendar, last) + history + 1; next < |calendar| && calendar[next] <= day)
  }

  /** The affected end is right for some output days exactly when each of them that lies after it is out of reach;
      a calendar day always is. */
  lemma AffectedEndExactly(calendar: seq<int>, history: nat, last: int, end: int, outputs: set<int>)
    requires Ascending(calendar) && (calendar != [] || history > 0)
    ensures var affected := AffectedEnd(calendar, history, last, end);
      (forall day, observed | day in outputs && affected < day <= end && observed <= last ::
         !Reads(calendar, history, day, observed))
      <==> (forall day | day in outputs && affected < day <= end :: OutOfReach(calendar, history, last, day))
  {
    var affected := AffectedEnd(calendar, history, last, end);
    forall day | day in outputs && affected < day <= end
      ensures OutOfReach(calendar, history, last, day) <==> forall observed | observed <= last ::
        !Reads(calendar, history, day, observed)
    {
      DayOutOfReach(calendar, history, last, end, day);
    }
  }

  /** The same for one day. */
  lemma DayOutOfReach(calendar: seq<int>, history: nat, last: int, end: int, day: int)
    requires Ascending(calendar) && (calendar != [] || history > 0)
    requires AffectedEnd(calendar, history, last, end) < day <= end
    ensures OutOfReach(calendar, history, last, day) <==> forall observed | observed <= last ::
      !Reads(calendar, history, day, observed)
  {
    if calendar != [] {
      if last < calendar[0] {
        assert calendar[0] <= ReadsFrom(calendar, history, day) by { ReadsFromCalendar(calendar, history, day); }
      } else {
        FirstDayReached(calendar, history, last, end, day);
        ReachExact(calendar, history, last, day);
        var from := ReadsFrom(calendar, history, day);
        if from <= last { assert Reads(calendar, history, day, from); }
      }
    }
  }

  lemma ReadsFromCalendar(calendar: seq<int>, history: nat, day: int)
    requires Ascending(calendar) && calendar != []
    ensures calendar[0] <= ReadsFrom(calendar, history, day)
  {}

  lemma FirstDayReached(calendar: seq<int>, history: nat, last: int, end: int, day: int)
    requires Ascending(calendar) && calendar != [] && calendar[0] <= last
    requires AffectedEnd(calendar, history, last, end) < day <= end
    ensures calendar[0] <= day && ReadsFrom(calendar, history, day) <= day
  {
    var position := LastIndex(calendar, last) + history;
    assert 0 <= position < |calendar|;
    assert calendar[0] <= calendar[position] < day;
    var j := LastIndex(calendar, day);
    var from := if j - history < 0 then 0 else j - history;
    assert calendar[from] <= calendar[j];
  }

  /** Off the calendar the bound is not enough: day 7 still reads the change of day 1. */
  lemma OffCalendarDayIsMissed(end: int)
    requires end >= 7
    ensures AffectedEnd([1, 5, 9], 1, 1, end) == 5 && Reads([1, 5, 9], 1, 7, 1)
  {
    assert [1, 5, 9][1..] == [5, 9] && [5, 9][1..] == [9] && [9][1..] == [];
    assert BisectRight([9], 1) == 0 && BisectRight([9], 7) == 0;
    assert BisectRight([5, 9], 1) == 0 && BisectRight([5, 9], 7) == 1;
    assert BisectRight([1, 5, 9], 1) == 1 && BisectRight([1, 5, 9], 7) == 2;
  }

  /** Clipping inputs before the halo changes nothing any output day on or after the start reads. */
  lemma HaloCoversReads(calendar: seq<int>, history: nat, start: int, day: int, observed: int)
    requires Ascending(calendar) && start <= day && Reads(calendar, history, day, observed)
    ensures ReadStart(calendar, history, start) <= observed
  {
    var n, j := BisectLeft(calendar, start), LastIndex(calendar, day);
    LeftBelowRight(start, calendar);
    IndexOrder(calendar, start, day);
    if n > 0 {
      assert j >= n - 1;
      if n > history && j - history >= 0 {
        assert calendar[n - (history + 1)] <= calendar[j - history];
      }
    }
  }
}
