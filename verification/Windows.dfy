/** Closed date windows (dates are day numbers) and the normal form the planner reports. */
module Windows {
  import opened Sorting

  datatype Window = Window(first: int, last: int) {
    predicate Contains(day: int) { first <= day <= last }
  }

  /** The tuple order Python sorts windows by. */
  predicate Precedes(a: Window, b: Window) {
    a.first < b.first || (a.first == b.first && a.last <= b.last)
  }

  predicate Covered(ws: seq<Window>, day: int) {
    exists w :: w in ws && w.Contains(day)
  }

  /** How many of the windows hold a day. */
  function Times(ws: seq<Window>, day: int): nat {
    if ws == [] then 0 else Times(ws[..|ws| - 1], day) + if ws[|ws| - 1].Contains(day) then 1 else 0
  }

  lemma {:induction false} TimesCovered(ws: seq<Window>, day: int)
    ensures Covered(ws, day) <==> Times(ws, day) > 0
  {
    if ws != [] {
      var init, top := ws[..|ws| - 1], ws[|ws| - 1];
      TimesCovered(init, day);
      assert ws == init + [top];
      CoveredAppend(init, top);
    }
  }

  lemma TimesAppend(ws: seq<Window>, w: Window, day: int)
    ensures Times(ws + [w], day) == Times(ws, day) + if w.Contains(day) then 1 else 0
  {
    assert (ws + [w])[..|ws|] == ws;
  }

  /** Nonempty windows in increasing order with at least one uncovered day between neighbours. */
  ghost predicate Normal(ws: seq<Window>) {
    ws == [] ||
    var init, top := ws[..|ws| - 1], ws[|ws| - 1];
    Normal(init) && top.first <= top.last && (init != [] ==> init[|init| - 1].last + 1 < top.first)
  }

  lemma {:induction false} NormalAt(ws: seq<Window>)
    requires Normal(ws)
    ensures forall i | 0 <= i < |ws| :: ws[i].first <= ws[i].last
    ensures forall i, j | 0 <= i < j < |ws| :: ws[i].last + 1 < ws[j].first
  {
    if ws != [] {
      NormalAt(ws[..|ws| - 1]);
    }
  }

  lemma {:induction false} NormalFrom(ws: seq<Window>)
    requires forall i | 0 <= i < |ws| :: ws[i].first <= ws[i].last
    requires forall i, j | 0 <= i < j < |ws| :: ws[i].last + 1 < ws[j].first
    ensures Normal(ws)
  {
    if ws != [] {
      NormalFrom(ws[..|ws| - 1]);
    }
  }

  lemma CoveredAppend(ws: seq<Window>, w: Window)
    ensures forall day :: Covered(ws + [w], day) <==> Covered(ws, day) || w.Contains(day)
  {
    forall day ensures Covered(ws + [w], day) <==> Covered(ws, day) || w.Contains(day) {
      if Covered(ws, day) {
        var v :| v in ws && v.Contains(day);
        assert v in ws + [w];
      }
      assert w in ws + [w];
    }
  }

  /** One step of the sweep: a window that touches the last one extends it, any other is added. */
  function Absorb(ws: seq<Window>, w: Window): (r: seq<Window>) {
    if ws != [] && w.first <= ws[|ws| - 1].last + 1 then
      var top := ws[|ws| - 1];
      ws[..|ws| - 1] + [Window(top.first, if top.last < w.last then w.last else top.last)]
    else ws + [w]
  }

  lemma AbsorbKeepsNormal(ws: seq<Window>, w: Window)
    requires Normal(ws) && w.first <= w.last
    ensures Normal(Absorb(ws, w))
  {
    var r := Absorb(ws, w);
    assert r[..|r| - 1] == if ws != [] && w.first <= ws[|ws| - 1].last + 1 then ws[..|ws| - 1] else ws;
  }

  lemma AbsorbCovers(ws: seq<Window>, w: Window)
    requires ws != [] ==> ws[|ws| - 1].first <= w.first
    ensures forall day :: Covered(Absorb(ws, w), day) <==> Covered(ws, day) || w.Contains(day)
  {
    if ws != [] && w.first <= ws[|ws| - 1].last + 1 {
      var init, top := ws[..|ws| - 1], ws[|ws| - 1];
      assert ws == init + [top];
      CoveredAppend(init, top);
      CoveredAppend(init, Window(top.first, if top.last < w.last then w.last else top.last));
    } else {
      CoveredAppend(ws, w);
    }
  }

  lemma PrecedesIsTotal()
    ensures TotalPreorder(Precedes)
  {}

  /** A normal form of the days of other windows. */
  ghost predicate NormalFormOf(ws: seq<Window>, windows: seq<Window>) {
    Normal(ws) && forall day :: Covered(ws, day) <==> Covered(windows, day)
  }

  lemma AbsorbStep(ws: seq<Window>, windows: seq<Window>, w: Window)
    requires NormalFormOf(ws, windows) && w.first <= w.last
    requires ws != [] ==> ws[|ws| - 1].first <= w.first
    ensures NormalFormOf(Absorb(ws, w), windows + [w])
    ensures Absorb(ws, w) != [] && Absorb(ws, w)[|Absorb(ws, w)| - 1].first <= w.first
  {
    AbsorbKeepsNormal(ws, w);
    AbsorbCovers(ws, w);
    CoveredAppend(windows, w);
  }

  method AddWindow(ws: seq<Window>, w: Window) returns (r: seq<Window>)
    ensures r == Absorb(ws, w)
  {
    if ws != [] && w.first <= ws[|ws| - 1].last + 1 {
      var top := ws[|ws| - 1];
      return ws[..|ws| - 1] + [Window(top.first, if top.last < w.last then w.last else top.last)];
    }
    return ws + [w];
  }

  method MergeSorted(ordered: seq<Window>) returns (result: seq<Window>)
    requires forall w | w in ordered :: w.first <= w.last
    requires forall i | 0 < i < |ordered| :: ordered[i - 1].first <= ordered[i].first
    ensures NormalFormOf(result, ordered)
  {
    result := [];
    for i := 0 to |ordered|
      invariant NormalFormOf(result, ordered[..i])
      invariant result != [] ==> i > 0 && result[|result| - 1].first <= ordered[i - 1].first
    {
      AbsorbStep(result, ordered[..i], ordered[i]);
      assert ordered[..i + 1] == ordered[..i] + [ordered[i]];
      result := AddWindow(result, ordered[i]);
    }
    assert ordered[..|ordered|] == ordered;
  }

  /** Merges windows in one sweep over their sorted order. */
  method Merge(windows: seq<Window>) returns (result: seq<Window>)
    requires forall w | w in windows :: w.first <= w.last
    ensures NormalFormOf(result, windows)
  {
    var ordered := Sort(windows, Precedes);
    PrecedesIsTotal();
    SortSorts(windows, Precedes);
    SortKeepsElements(windows, Precedes);
    assert forall i | 0 < i < |ordered| :: Precedes(ordered[i - 1], ordered[i]);
    result := MergeSorted(ordered);
    forall day ensures Covered(ordered, day) <==> Covered(windows, day) {}
  }

  lemma FirstDayCovered(ws: seq<Window>)
    requires Normal(ws) && ws != []
    ensures ws[0].first <= ws[0].last
    ensures Covered(ws, ws[0].first)
    ensures forall day :: Covered(ws, day) ==> ws[0].first <= day
    ensures !Covered(ws, ws[0].last + 1)
    ensures forall day | ws[0].first <= day <= ws[0].last :: Covered(ws, day)
  {
    NormalAt(ws);
    assert ws[0] in ws;
    forall w | w in ws ensures w == ws[0] || ws[0].last + 1 < w.first {}
  }

  lemma TailCovers(ws: seq<Window>)
    requires Normal(ws) && ws != []
    ensures Normal(ws[1..])
    ensures forall day :: Covered(ws[1..], day) <==> Covered(ws, day) && day > ws[0].last
  {
    NormalAt(ws);
    NormalFrom(ws[1..]);
    forall day ensures Covered(ws[1..], day) <==> Covered(ws, day) && day > ws[0].last {
      if Covered(ws[1..], day) {
        var w :| w in ws[1..] && w.Contains(day);
        assert w in ws && ws[0].last + 1 < w.first;
      }
      if Covered(ws, day) && day > ws[0].last {
        var w :| w in ws && w.Contains(day);
        assert w in ws[1..];
      }
    }
  }

  /** A set of days has one normal form, so Merge's result is determined by the days it is given. */
  lemma {:induction false} NormalFormUnique(a: seq<Window>, b: seq<Window>)
    requires Normal(a) && Normal(b)
    requires forall day :: Covered(a, day) <==> Covered(b, day)
    ensures a == b
  {
    if a == [] || b == [] {
      if a != [] { FirstDayCovered(a); }
      if b != [] { FirstDayCovered(b); }
    } else {
      FirstDayCovered(a);
      FirstDayCovered(b);
      TailCovers(a);
      TailCovers(b);
      NormalFormUnique(a[1..], b[1..]);
      assert a == [a[0]] + a[1..] && b == [b[0]] + b[1..];
    }
  }
}
