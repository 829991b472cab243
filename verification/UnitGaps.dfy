/** What a date unit still lacks: one sweep over the windows already completed (items/initialization.py). */
module UnitGaps {
  import opened Sorting
  import opened Windows

  // ---------------------------------------------------------------- gaps of a unit

  predicate Overlaps(a: Window, b: Window) { a.first <= b.last && b.first <= a.last }

  function Overlapping(windows: seq<Window>, unit: Window): (r: seq<Window>)
    ensures forall w :: w in r <==> w in windows && Overlaps(w, unit)
  {
    if windows == [] then [] else
      assert forall w :: w in windows <==> w == windows[0] || w in windows[1..];
      (if Overlaps(windows[0], unit) then [windows[0]] else []) + Overlapping(windows[1..], unit)
  }

  ghost predicate Ordered(windows: seq<Window>) {
    forall i, j | 0 <= i < j < |windows| :: windows[i].first <= windows[j].first
  }

  /** Work still to do: a window of n days weighs 2n - 1. */
  function Weight(w: Window): int { 2 * (w.last - w.first + 1) - 1 }

  function TotalWeight(windows: seq<Window>): int {
    if windows == [] then 0 else TotalWeight(windows[..|windows| - 1]) + Weight(windows[|windows| - 1])
  }

  ghost predicate Within(windows: seq<Window>, outer: Window) {
    forall w | w in windows :: outer.first <= w.first <= w.last <= outer.last
  }

  lemma TotalWeightLast(windows: seq<Window>, w: Window)
    ensures TotalWeight(windows + [w]) == TotalWeight(windows) + Weight(w)
  {
    assert (windows + [w])[..|windows|] == windows;
  }

  /** No day lies in two windows. */
  ghost predicate Apart(windows: seq<Window>) { forall day :: Times(windows, day) <= 1 }

  lemma ApartAppend(windows: seq<Window>, w: Window)
    requires Apart(windows) && forall day | w.Contains(day) :: !Covered(windows, day)
    ensures Apart(windows + [w])
  {
    forall day ensures Times(windows + [w], day) <= 1 {
      TimesAppend(windows, w, day);
      TimesCovered(windows, day);
    }
  }

  /** The state of the gap sweep over done[..]: found gaps are the uncovered days before the cursor. */
  ghost predicate GapsUpTo(gaps: seq<Window>, done: seq<Window>, unit: Window, cursor: int) {
    && unit.first <= cursor
    && (forall w | w in done :: w.last < cursor)
    && Within(gaps, unit) && Apart(gaps)
    && (forall g | g in gaps :: done != [] && g.last < done[|done| - 1].first)
    && (forall day :: Covered(gaps, day) <==> unit.first <= day < cursor && day <= unit.last && !Covered(done, day))
    && TotalWeight(gaps) + |gaps| <= 2 * (cursor - unit.first)
    && (cursor > unit.last + 1 ==> TotalWeight(gaps) + |gaps| <= 2 * (unit.last - unit.first + 1))
  }

  lemma GapStep(gaps: seq<Window>, done: seq<Window>, unit: Window, cursor: int, next: Window)
    requires GapsUpTo(gaps, done, unit, cursor) && unit.first <= unit.last
    requires next.first <= next.last && Overlaps(next, unit)
    requires done != [] ==> done[|done| - 1].first <= next.first
    ensures var r := if next.first > cursor then gaps + [Window(cursor, next.first - 1)] else gaps;
      GapsUpTo(r, done + [next], unit, if cursor < next.last + 1 then next.last + 1 else cursor)
  {
    var gap := Window(cursor, next.first - 1);
    CoveredAppend(done, next);
    forall day | Covered(gaps, day) ensures day < next.first {
      var g :| g in gaps && g.Contains(day);
    }
    assert forall day | cursor <= day :: !Covered(done, day);
    if next.first > cursor {
      CoveredAppend(gaps, gap);
      ApartAppend(gaps, gap);
      TotalWeightLast(gaps, gap);
      assert forall w :: w in gaps + [gap] <==> w in gaps || w == gap;
    }
  }

  lemma FinalGap(gaps: seq<Window>, done: seq<Window>, unit: Window, cursor: int)
    requires GapsUpTo(gaps, done, unit, cursor) && unit.first <= unit.last
    ensures var r := if cursor <= unit.last then gaps + [Window(cursor, unit.last)] else gaps;
      && Within(r, unit) && Apart(r)
      && (forall day :: Covered(r, day) <==> unit.Contains(day) && !Covered(done, day))
      && TotalWeight(r) + |r| <= 2 * (unit.last - unit.first + 1)
  {
    var gap := Window(cursor, unit.last);
    assert forall day | cursor <= day :: !Covered(done, day);
    if cursor <= unit.last {
      CoveredAppend(gaps, gap);
      ApartAppend(gaps, gap);
      TotalWeightLast(gaps, gap);
      assert forall w :: w in gaps + [gap] <==> w in gaps || w == gap;
    }
  }

  /** What is left to do after a sweep is lighter, unless nothing at all was done. */
  lemma GapsAreLighter(gaps: seq<Window>, unit: Window)
    requires unit.first <= unit.last && Within(gaps, unit) && gaps != [unit]
    requires TotalWeight(gaps) + |gaps| <= 2 * (unit.last - unit.first + 1)
    ensures TotalWeight(gaps) < Weight(unit)
  {
    if |gaps| == 1 {
      assert gaps[0] in gaps;
      assert gaps == [] + [gaps[0]];
      TotalWeightLast([], gaps[0]);
    }
  }

  lemma WindowOrderTotal()
    ensures TotalPreorder(Precedes)
  {}

  /** One completed window: what lies before it is a gap, and the cursor moves past it. */
  method Advance(gaps: seq<Window>, ghost done: seq<Window>, unit: Window, cursor: int, next: Window)
    returns (r: seq<Window>, moved: int)
    requires GapsUpTo(gaps, done, unit, cursor) && unit.first <= unit.last
    requires next.first <= next.last && Overlaps(next, unit)
    requires done != [] ==> done[|done| - 1].first <= next.first
    ensures GapsUpTo(r, done + [next], unit, moved)
  {
    GapStep(gaps, done, unit, cursor, next);
    r := if next.first > cursor then gaps + [Window(cursor, next.first - 1)] else gaps;
    moved := if cursor < next.last + 1 then next.last + 1 else cursor;
  }

  /** The days after the last completed window are a gap too. */
  method CloseSweep(found: seq<Window>, ghost done: seq<Window>, unit: Window, cursor: int) returns (gaps: seq<Window>)
    requires GapsUpTo(found, done, unit, cursor) && unit.first <= unit.last
    ensures Within(gaps, unit) && Apart(gaps)
    ensures forall day :: Covered(gaps, day) <==> unit.Contains(day) && !Covered(done, day)
    ensures TotalWeight(gaps) + |gaps| <= 2 * (unit.last - unit.first + 1)
    ensures found == [] && cursor == unit.first ==> gaps == [unit]
  {
    FinalGap(found, done, unit, cursor);
    gaps := if cursor <= unit.last then found + [Window(cursor, unit.last)] else found;
  }

  /** Windows that can be swept: nonempty, each overlapping the unit, in order of their first days. */
  ghost predicate Sweepable(windows: seq<Window>, unit: Window) {
    windows == [] ||
    var init, top := windows[..|windows| - 1], windows[|windows| - 1];
    && Sweepable(init, unit)
    && top.first <= top.last && Overlaps(top, unit)
    && (init != [] ==> init[|init| - 1].first <= top.first)
  }

  lemma {:induction false} SortedIsSweepable(windows: seq<Window>, unit: Window)
    requires forall w | w in windows :: w.first <= w.last && Overlaps(w, unit)
    requires SortedBy(windows, Precedes)
    ensures Sweepable(windows, unit)
  {
    if windows != [] {
      SortedIsSweepable(windows[..|windows| - 1], unit);
      if |windows| > 1 {
        assert Precedes(windows[|windows| - 2], windows[|windows| - 1]);
      }
    }
  }

  lemma {:induction false} SweepablePrefix(windows: seq<Window>, unit: Window, n: nat)
    requires Sweepable(windows, unit) && n <= |windows|
    ensures Sweepable(windows[..n], unit)
  {
    if n < |windows| {
      SweepablePrefix(windows[..|windows| - 1], unit, n);
      assert windows[..|windows| - 1][..n] == windows[..n];
    } else {
      assert windows[..n] == windows;
    }
  }

  method SweepGaps(unit: Window, ordered: seq<Window>) returns (gaps: seq<Window>)
    requires unit.first <= unit.last && Sweepable(ordered, unit)
    ensures Within(gaps, unit) && Apart(gaps)
    ensures forall day :: Covered(gaps, day) <==> unit.Contains(day) && !Covered(ordered, day)
    ensures TotalWeight(gaps) + |gaps| <= 2 * (unit.last - unit.first + 1)
    ensures ordered == [] ==> gaps == [unit]
  {
    var found: seq<Window> := [];
    var cursor := unit.first;
    for i := 0 to |ordered|
      invariant GapsUpTo(found, ordered[..i], unit, cursor)
      invariant i == 0 ==> found == [] && cursor == unit.first
    {
      SweepablePrefix(ordered, unit, i + 1);
      ghost var done := ordered[..i];
      assert ordered[..i + 1] == done + [ordered[i]];
      assert ordered[..i + 1][..i] == done;
      found, cursor := Advance(found, done, unit, cursor, ordered[i]);
    }
    assert ordered[..|ordered|] == ordered;
    gaps := CloseSweep(found, ordered, unit, cursor);
  }

  /** No completed window meets the unit. */
  ghost predicate Untouched(completed: seq<Window>, unit: Window) {
    forall w | w in completed :: !Overlaps(w, unit)
  }

  lemma WholeGap(unit: Window, completed: seq<Window>)
    requires unit.first <= unit.last && forall w | w in completed :: w.first <= w.last
    requires forall day :: Covered([unit], day) <==> unit.Contains(day) && !Covered(completed, day)
    ensures Untouched(completed, unit)
    ensures forall day | unit.Contains(day) :: !Covered(completed, day)
  {
    assert unit in [unit];
    forall day | unit.Contains(day) ensures !Covered(completed, day) {
      assert Covered([unit], day);
    }
    forall w | w in completed ensures !Overlaps(w, unit) {
      var day := if w.first < unit.first then unit.first else w.first;
      assert w.Contains(day) ==> Covered(completed, day);
    }
  }

  lemma OverlappingCovers(unit: Window, completed: seq<Window>, ordered: seq<Window>)
    requires forall w :: w in ordered <==> w in completed && Overlaps(w, unit)
    ensures forall day | unit.Contains(day) :: Covered(ordered, day) <==> Covered(completed, day)
  {}

  /** The uncovered parts of a unit, by one sweep over the sorted completed windows. */
  method Gaps(unit: Window, completed: seq<Window>) returns (gaps: seq<Window>)
    requires unit.first <= unit.last && forall w | w in completed :: w.first <= w.last
    ensures Within(gaps, unit) && Apart(gaps)
    ensures forall day :: Covered(gaps, day) <==> unit.Contains(day) && !Covered(completed, day)
    ensures gaps != [unit] ==> TotalWeight(gaps) < Weight(unit)
    ensures gaps == [unit] <==> Untouched(completed, unit)
  {
    var found := Overlapping(completed, unit);
    var ordered := Sort(found, Precedes);
    WindowOrderTotal();
    SortSorts(found, Precedes);
    SortKeepsElements(found, Precedes);
    SortedIsSweepable(ordered, unit);
    gaps := SweepGaps(unit, ordered);
    OverlappingCovers(unit, completed, ordered);
    if gaps != [unit] {
      GapsAreLighter(gaps, unit);
      if ordered != [] { assert ordered[0] in ordered; }
    } else {
      WholeGap(unit, completed);
    }
  }
}
