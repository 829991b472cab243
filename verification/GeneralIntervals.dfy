/** The days on which a changed set of dated tuples can matter (general_intervals.py). */
module GeneralIntervals {
  import opened Wrappers
  import opened Sorting
  import opened Windows

  /** Proleptic Gregorian ordinals; MAX_DAY is 9999-12-31, the last date the library can hold. */
  const MAX_DAY := 3652059

  type Day = d: int | 1 <= d <= MAX_DAY witness 1

  /** A date field as text: null, not a date, or a date. */
  datatype Cell = Null | Unreadable | Date(day: Day)

  /** One consumed tuple; payload stands for every field but the two interval dates. */
  datatype Tuple = Tuple(payload: int, first: Cell, last: Cell) {
    predicate Dated() { first.Date? && !last.Unreadable? }

    /** Inclusive start, exclusive end; a null end never ends. */
    predicate ActiveOn(day: Day) {
      first.Date? && first.day <= day && (last.Null? || (last.Date? && day < last.day))
    }
  }

  datatype Span = Span(first: Day, stop: Option<Day>)

  datatype Error = InvalidDates

  function NextDay(d: Day): Day
    requires d < MAX_DAY
  { d + 1 }

  function ActiveTuples(tuples: seq<Tuple>, day: Day): seq<Tuple> {
    if tuples == [] then [] else
      (if tuples[0].ActiveOn(day) then [tuples[0]] else []) + ActiveTuples(tuples[1..], day)
  }

  predicate Changed(t: Tuple, before: seq<Tuple>, after: seq<Tuple>) {
    multiset(before)[t] != multiset(after)[t]
  }

  function ChangedTuples(tuples: seq<Tuple>, before: seq<Tuple>, after: seq<Tuple>): (r: seq<Tuple>)
    ensures forall t :: t in r <==> t in tuples && Changed(t, before, after)
  {
    if tuples == [] then [] else
      (if Changed(tuples[0], before, after) then [tuples[0]] else []) + ChangedTuples(tuples[1..], before, after)
  }

  function SpanOf(t: Tuple): Span
    requires t.Dated()
  {
    Span(t.first.day, if t.last.Null? then None else Some(t.last.day))
  }

  /** The distinct spans of dated tuples. */
  function Spans(tuples: seq<Tuple>): (r: seq<Span>)
    requires forall t | t in tuples :: t.Dated()
    ensures forall s :: s in r <==> exists t :: t in tuples && SpanOf(t) == s
  {
    if tuples == [] then [] else
      var rest := Spans(tuples[1..]);
      assert forall t :: t in tuples <==> t == tuples[0] || t in tuples[1..];
      if SpanOf(tuples[0]) in rest then rest else [SpanOf(tuples[0])] + rest
  }

  /** Ascending by first day, then by end with open ends last. */
  predicate SpanPrecedes(a: Span, b: Span) {
    || a.first < b.first
    || (a.first == b.first && (b.stop.None? || (a.stop.Some? && a.stop.value <= b.stop.value)))
  }

  ghost predicate SpanContains(s: Span, day: Day) {
    s.first <= day && (s.stop.None? || day < s.stop.value)
  }

  ghost predicate SpanCovers(spans: seq<Span>, day: Day) {
    exists s :: s in spans && SpanContains(s, day)
  }

  ghost predicate Bounded(ws: seq<Window>) {
    forall w | w in ws :: 1 <= w.first <= w.last <= MAX_DAY
  }

  lemma SpanCoversAppend(spans: seq<Span>, s: Span)
    ensures forall day: Day :: SpanCovers(spans + [s], day) <==> SpanCovers(spans, day) || SpanContains(s, day)
  {
    forall day: Day ensures SpanCovers(spans + [s], day) <==> SpanCovers(spans, day) || SpanContains(s, day) {
      if SpanCovers(spans, day) {
        var v :| v in spans && SpanContains(v, day);
        assert v in spans + [s];
      }
      assert s in spans + [s];
    }
  }

  /** A normal form, within the legal dates, of the days of some spans. */
  ghost predicate RangesOf(ws: seq<Window>, spans: seq<Span>) {
    Normal(ws) && Bounded(ws) && forall day: Day :: Covered(ws, day) <==> SpanCovers(spans, day)
  }

  function LastDay(s: Span): (last: Day)
    requires s.stop.Some? ==> s.first < s.stop.value
    ensures s.first <= last
    ensures forall day: Day :: s.first <= day <= last <==> SpanContains(s, day)
  {
    if s.stop.None? then MAX_DAY else s.stop.value - 1
  }

  lemma SpanStep(ws: seq<Window>, spans: seq<Span>, s: Span)
    requires RangesOf(ws, spans)
    requires ws != [] ==> ws[|ws| - 1].first <= s.first
    requires s.stop.Some? ==> s.first < s.stop.value
    ensures var r := Absorb(ws, Window(s.first, LastDay(s)));
      RangesOf(r, spans + [s]) && r != [] && r[|r| - 1].first <= s.first
  {
    var w := Window(s.first, LastDay(s));
    AbsorbKeepsNormal(ws, w);
    AbsorbKeepsBounds(ws, w);
    var r := Absorb(ws, w);
    forall day: Day ensures Covered(r, day) <==> SpanCovers(spans + [s], day) {
      SpanDay(ws, spans, s, day);
    }
  }

  lemma SpanDay(ws: seq<Window>, spans: seq<Span>, s: Span, day: Day)
    requires RangesOf(ws, spans)
    requires ws != [] ==> ws[|ws| - 1].first <= s.first
    requires s.stop.Some? ==> s.first < s.stop.value
    ensures Covered(Absorb(ws, Window(s.first, LastDay(s))), day) <==> SpanCovers(spans + [s], day)
  {
    AbsorbCovers(ws, Window(s.first, LastDay(s)));
    SpanCoversAppend(spans, s);
  }

  lemma AbsorbKeepsBounds(ws: seq<Window>, w: Window)
    requires Bounded(ws) && 1 <= w.first <= w.last <= MAX_DAY
    ensures Bounded(Absorb(ws, w))
  {
    if ws != [] {
      assert ws[|ws| - 1] in ws;
      assert forall v | v in ws[..|ws| - 1] :: v in ws;
    }
  }

  lemma EmptySpanStep(ws: seq<Window>, spans: seq<Span>, s: Span)
    requires RangesOf(ws, spans) && s.stop.Some? && s.stop.value <= s.first
    ensures RangesOf(ws, spans + [s])
  {
    SpanCoversAppend(spans, s);
  }

  /** Extends the last range or adds one, never stepping past the last legal date. */
  method AddRange(ranges: seq<Window>, first: Day, last: Day) returns (r: seq<Window>)
    requires ranges != [] ==> 1 <= ranges[|ranges| - 1].last <= MAX_DAY
    ensures r == Absorb(ranges, Window(first, last))
  {
    if ranges != [] && (ranges[|ranges| - 1].last == MAX_DAY || first <= NextDay(ranges[|ranges| - 1].last)) {
      var top := ranges[|ranges| - 1];
      return ranges[..|ranges| - 1] + [Window(top.first, if top.last < last then last else top.last)];
    }
    return ranges + [Window(first, last)];
  }

  /** Adds one span in sorted order; an empty span adds nothing. */
  method AddSpan(ranges: seq<Window>, s: Span, ghost earlier: seq<Span>) returns (r: seq<Window>)
    requires RangesOf(ranges, earlier)
    requires ranges != [] ==> ranges[|ranges| - 1].first <= s.first
    ensures RangesOf(r, earlier + [s])
    ensures r != [] ==> r[|r| - 1].first <= s.first
  {
    if s.stop.Some? && s.stop.value <= s.first {
      EmptySpanStep(ranges, earlier, s);
      return ranges;
    }
    SpanStep(ranges, earlier, s);
    r := AddRange(ranges, s.first, if s.stop.None? then MAX_DAY else s.stop.value - 1);
  }

  /** The merge loop over sorted spans; every date it forms is a legal date. */
  method MergeSpans(spans: seq<Span>) returns (result: seq<Window>)
    requires forall i | 0 < i < |spans| :: spans[i - 1].first <= spans[i].first
    ensures RangesOf(result, spans)
  {
    result := [];
    for i := 0 to |spans|
      invariant RangesOf(result, spans[..i])
      invariant result != [] ==> i > 0 && result[|result| - 1].first <= spans[i - 1].first
    {
      result := AddSpan(result, spans[i], spans[..i]);
      assert spans[..i + 1] == spans[..i] + [spans[i]];
    }
    assert spans[..|spans|] == spans;
  }

  lemma SpanOrderTotal()
    ensures TotalPreorder(SpanPrecedes)
  {}

  lemma {:induction false} ActiveMultiplicity(tuples: seq<Tuple>, day: Day, t: Tuple)
    ensures multiset(ActiveTuples(tuples, day))[t] == if t.ActiveOn(day) then multiset(tuples)[t] else 0
  {
    if tuples != [] {
      ActiveMultiplicity(tuples[1..], day, t);
      assert tuples == [tuples[0]] + tuples[1..];
    }
  }

  /** A changed tuple is active on a day exactly when the active multisets of that day differ. */
  lemma ActiveSetsDiffer(before: seq<Tuple>, after: seq<Tuple>, day: Day)
    ensures (exists t :: t in before + after && Changed(t, before, after) && t.ActiveOn(day))
       <==> multiset(ActiveTuples(before, day)) != multiset(ActiveTuples(after, day))
  {
    var old', new' := multiset(ActiveTuples(before, day)), multiset(ActiveTuples(after, day));
    if old' != new' {
      var t :| old'[t] != new'[t];
      ActiveMultiplicity(before, day, t);
      ActiveMultiplicity(after, day, t);
      assert multiset(before)[t] > 0 || multiset(after)[t] > 0;
      assert t in before + after;
    }
    forall t | t in before + after && Changed(t, before, after) && t.ActiveOn(day)
      ensures old' != new'
    {
      ActiveMultiplicity(before, day, t);
      ActiveMultiplicity(after, day, t);
      assert old'[t] != new'[t];
    }
  }

  lemma SpansOfChanges(changes: seq<Tuple>, spans: seq<Span>, day: Day)
    requires forall t | t in changes :: t.Dated()
    requires forall s :: s in spans <==> exists t :: t in changes && SpanOf(t) == s
    ensures SpanCovers(spans, day) <==> exists t :: t in changes && t.ActiveOn(day)
  {
    forall t | t in changes && t.ActiveOn(day) ensures SpanCovers(spans, day) {
      assert SpanOf(t) in spans && SpanContains(SpanOf(t), day);
    }
    if SpanCovers(spans, day) {
      var s :| s in spans && SpanContains(s, day);
      var t :| t in changes && SpanOf(t) == s;
      assert t.ActiveOn(day);
    }
  }

  /** Fails exactly on a changed tuple without usable dates. Otherwise the ranges are in normal form and
      a day is in them exactly when the active tuples before and after differ as multisets on that day. */
  method Ranges(before: seq<Tuple>, after: seq<Tuple>) returns (r: Result<seq<Window>, Error>)
    ensures r.Failure? <==> exists t :: t in before + after && Changed(t, before, after) && !t.Dated()
    ensures r.Success? ==> Normal(r.value) && Bounded(r.value)
    ensures r.Success? ==> forall day: Day ::
      Covered(r.value, day) <==> multiset(ActiveTuples(before, day)) != multiset(ActiveTuples(after, day))
  {
    var changes := ChangedTuples(before + after, before, after);
    if exists t | t in changes :: !t.Dated() {
      return Failure(InvalidDates);
    }
    var spans := Sort(Spans(changes), SpanPrecedes);
    SpanOrderTotal();
    SortSorts(Spans(changes), SpanPrecedes);
    SortKeepsElements(Spans(changes), SpanPrecedes);
    assert forall i | 0 < i < |spans| :: SpanPrecedes(spans[i - 1], spans[i]);
    var result := MergeSpans(spans);
    forall day: Day
      ensures Covered(result, day) <==> multiset(ActiveTuples(before, day)) != multiset(ActiveTuples(after, day))
    {
      SpansOfChanges(changes, spans, day);
      ActiveSetsDiffer(before, after, day);
    }
    return Success(result);
  }
}
