/** Cutting a range into date units, and checking at the end that units cover it (items/initialization.py). */
module UnitPartition {
  import opened Wrappers
  import opened Extremes
  import opened Sorting
  import opened Windows

  // ---------------------------------------------------------------- month partition

  /** nextMonth gives the first day of the month after a day's own month. */
  ghost predicate Months(nextMonth: int -> int) {
    && (forall day :: day < nextMonth(day))
    && (forall day, other | day <= other < nextMonth(day) :: nextMonth(other) == nextMonth(day))
  }

  /** Windows that follow one another without gap or overlap from first up to, not including, stop. */
  ghost predicate Tiles(ws: seq<Window>, first: int, stop: int) {
    if ws == [] then first == stop else
      var top := ws[|ws| - 1];
      Tiles(ws[..|ws| - 1], first, top.first) && top.first <= top.last && top.last + 1 == stop
  }

  lemma {:induction false} TilesOnce(ws: seq<Window>, first: int, stop: int, day: int)
    requires Tiles(ws, first, stop)
    ensures Times(ws, day) == if first <= day < stop then 1 else 0
  {
    if ws != [] {
      var init, top := ws[..|ws| - 1], ws[|ws| - 1];
      TilesOnce(init, first, top.first, day);
      TilesCover(init, first, top.first);
    }
  }

  lemma {:induction false} TilesCover(ws: seq<Window>, first: int, stop: int)
    requires Tiles(ws, first, stop)
    ensures first <= stop
    ensures forall day :: Covered(ws, day) <==> first <= day < stop
    ensures forall i | 0 <= i < |ws| :: first <= ws[i].first <= ws[i].last < stop
    ensures forall i, j | 0 <= i < j < |ws| :: ws[i].last < ws[j].first
  {
    if ws != [] {
      var init, top := ws[..|ws| - 1], ws[|ws| - 1];
      TilesCover(init, first, top.first);
      CoveredAppend(init, top);
      assert ws == init + [top];
    }
  }

  /** A unit is as long as its month, the window length and the range allow, and no longer. */
  ghost predicate Admitted(w: Window, last: int, days: nat, nextMonth: int -> int) {
    && w.last < nextMonth(w.first) && w.last - w.first < days && w.last <= last
    && (w.last == last || w.last + 1 == nextMonth(w.first) || w.last - w.first + 1 == days)
  }

  method Partition(first: int, last: int, days: nat, nextMonth: int -> int) returns (units: seq<Window>)
    requires first <= last && days >= 1 && Months(nextMonth)
    ensures Tiles(units, first, last + 1)
    ensures forall w | w in units :: Admitted(w, last, days, nextMonth)
  {
    units := [];
    var day := first;
    while day <= last
      invariant day <= last + 1 && Tiles(units, first, day)
      invariant forall w | w in units :: Admitted(w, last, days, nextMonth)
    {
      var stop := Min(Min(last, nextMonth(day) - 1), day + (days - 1));
      ghost var before := units;
      units := units + [Window(day, stop)];
      assert units[..|units| - 1] == before;
      day := stop + 1;
    }
  }

  // ---------------------------------------------------------------- closing sweep

  /** A finished unit: the output dates it left waiting for later availability, how many commits of its output it
      answers for, and how many checks there were when it was stored. */
  datatype Finished = Finished(window: Window, pending: seq<int>, content: nat, checked: nat)

  predicate FinishedPrecedes(a: Finished, b: Finished) { Precedes(a.window, b.window) }

  function Spans(units: seq<Finished>): (r: seq<Window>)
    ensures |r| == |units|
    ensures forall i | 0 <= i < |units| :: r[i] == units[i].window
  {
    if units == [] then [] else Spans(units[..|units| - 1]) + [units[|units| - 1].window]
  }

  lemma SpansAppend(units: seq<Finished>, unit: Finished)
    ensures Spans(units + [unit]) == Spans(units) + [unit.window]
  {}

  function Inside(units: seq<Finished>, range: Window): (r: seq<Finished>)
    ensures forall u :: u in r <==> u in units && range.first <= u.window.first && u.window.last <= range.last
  {
    if units == [] then [] else
      assert forall u :: u in units <==> u == units[0] || u in units[1..];
      var head := units[0];
      (if range.first <= head.window.first && head.window.last <= range.last then [head] else [])
      + Inside(units[1..], range)
  }

  lemma SpansCover(units: seq<Finished>)
    ensures forall day :: Covered(Spans(units), day) <==> exists u :: u in units && u.window.Contains(day)
  {
    forall day ensures Covered(Spans(units), day) <==> exists u :: u in units && u.window.Contains(day) {
      if Covered(Spans(units), day) {
        var i :| 0 <= i < |units| && Spans(units)[i].Contains(day);
        assert units[i] in units;
      }
      if u :| u in units && u.window.Contains(day) {
        var i :| 0 <= i < |units| && units[i] == u;
        assert Spans(units)[i] in Spans(units);
      }
    }
  }

  /** The sweep over done has proved every day before the boundary, and no window of done reaches further. */
  ghost predicate SweptTo(done: seq<Window>, first: int, boundary: int) {
    && first <= boundary
    && (forall w | w in done :: w.last < boundary)
    && (forall day | first <= day < boundary :: Covered(done, day))
  }

  lemma SweepStep(done: seq<Window>, first: int, boundary: int, next: Window)
    requires SweptTo(done, first, boundary) && next.first <= boundary
    ensures SweptTo(done + [next], first, if boundary < next.last + 1 then next.last + 1 else boundary)
  {
    CoveredAppend(done, next);
  }

  lemma {:induction false} SpansSplit(units: seq<Finished>, i: nat)
    requires i <= |units|
    ensures Spans(units) == Spans(units[..i]) + Spans(units[i..])
  {}

  /** The next unit starts too late: no unit reaches the boundary day. */
  lemma StuckSweep(ordered: seq<Finished>, i: nat, first: int, boundary: int)
    requires i <= |ordered| && SweptTo(Spans(ordered[..i]), first, boundary)
    requires forall j | i <= j < |ordered| :: boundary < ordered[j].window.first
    ensures !Covered(Spans(ordered), boundary)
  {
    SpansSplit(ordered, i);
  }

  ghost predicate PendingOf(pending: seq<int>, units: seq<Finished>) {
    forall date :: date in pending <==> exists u :: u in units && date in u.pending
  }

  lemma PendingStep(pending: seq<int>, units: seq<Finished>, next: Finished)
    requires PendingOf(pending, units)
    ensures PendingOf(pending + next.pending, units + [next])
  {
    forall date ensures date in pending + next.pending <==> exists u :: u in units + [next] && date in u.pending {
      if u :| u in units && date in u.pending {
        assert u in units + [next];
      }
      assert next in units + [next];
    }
  }

  /** Every day of the range is covered by some unit. */
  ghost predicate Spanned(units: seq<Finished>, range: Window) {
    forall day | range.Contains(day) :: Covered(Spans(units), day)
  }

  /** The closing loop's state after i units. */
  ghost predicate Swept(ordered: seq<Finished>, i: nat, first: int, boundary: int, pending: seq<int>) {
    i <= |ordered| && SweptTo(Spans(ordered[..i]), first, boundary) && PendingOf(pending, ordered[..i])
  }

  function Further(boundary: int, w: Window): int { if boundary < w.last + 1 then w.last + 1 else boundary }

  lemma SweepUnit(ordered: seq<Finished>, i: nat, first: int, boundary: int, pending: seq<int>)
    requires i < |ordered| && Swept(ordered, i, first, boundary, pending)
    requires ordered[i].window.first <= boundary
    ensures Swept(ordered, i + 1, first, Further(boundary, ordered[i].window), pending + ordered[i].pending)
  {
    var done := ordered[..i];
    assert ordered[..i + 1] == done + [ordered[i]];
    SpansAppend(done, ordered[i]);
    SweepStep(Spans(done), first, boundary, ordered[i].window);
    PendingStep(pending, done, ordered[i]);
  }

  lemma SweepEnds(ordered: seq<Finished>, range: Window, boundary: int, pending: seq<int>)
    requires Swept(ordered, |ordered|, range.first, boundary, pending)
    ensures range.last < boundary ==> Spanned(ordered, range)
    ensures boundary <= range.last ==> !Spanned(ordered, range)
    ensures PendingOf(pending, ordered)
  {
    assert ordered[..|ordered|] == ordered;
    if boundary <= range.last {
      StuckSweep(ordered, |ordered|, range.first, boundary);
    }
  }

  /** Passes exactly when the ordered units leave no day out, and then carries every unit's pending dates. */
  method Sweep(ordered: seq<Finished>, range: Window) returns (r: Option<seq<int>>)
    requires range.first <= range.last && SortedBy(ordered, FinishedPrecedes)
    requires forall u | u in ordered :: u.window.last <= range.last && u.window.first <= u.window.last
    ensures r.Some? <==> Spanned(ordered, range)
    ensures r.Some? ==> PendingOf(r.value, ordered)
  {
    var boundary: int, pending: seq<int> := range.first, [];
    var i := 0;
    while i < |ordered|
      invariant i <= |ordered| && Swept(ordered, i, range.first, boundary, pending)
    {
      if ordered[i].window.first > boundary {
        assert forall j | i < j < |ordered| :: FinishedPrecedes(ordered[i], ordered[j]);
        StuckSweep(ordered, i, range.first, boundary);
        assert ordered[i] in ordered;
        break;
      }
      SweepUnit(ordered, i, range.first, boundary, pending);
      boundary := Further(boundary, ordered[i].window);
      pending := pending + ordered[i].pending;
      i := i + 1;
    }
    if i == |ordered| { SweepEnds(ordered, range, boundary, pending); }
    return if boundary <= range.last then None else Some(pending);
  }

  lemma FinishedOrderTotal()
    ensures TotalPreorder(FinishedPrecedes)
  {}

  /** The closing check over everything completed for one item. */
  method Close(completed: seq<Finished>, range: Window) returns (r: Option<seq<int>>)
    requires range.first <= range.last && forall u | u in completed :: u.window.first <= u.window.last
    ensures r.Some? <==> Spanned(Inside(completed, range), range)
    ensures r.Some? ==> PendingOf(r.value, Inside(completed, range))
  {
    var found := Inside(completed, range);
    var ordered := Sort(found, FinishedPrecedes);
    FinishedOrderTotal();
    SortSorts(found, FinishedPrecedes);
    SortKeepsElements(found, FinishedPrecedes);
    r := Sweep(ordered, range);
    SpansCover(found);
    SpansCover(ordered);
  }
}
