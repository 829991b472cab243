/** Sorted calendars, bisection, and the trading-session buffer (items/availability.py). */
module Calendars {
  import opened Wrappers

  ghost predicate Ascending(days: seq<int>) {
    forall i, j | 0 <= i < j < |days| :: days[i] < days[j]
  }

  /** The members of a set among the days first..last, in order. */
  function DaysIn(s: set<int>, first: int, last: int): (r: seq<int>)
    ensures forall d :: d in r <==> d in s && first <= d <= last
    ensures Ascending(r)
    decreases last - first
  {
    if first > last then [] else
      var rest := DaysIn(s, first + 1, last);
      assert forall j | 0 <= j < |rest| :: rest[j] in rest;
      if first in s then [first] + rest else rest
  }

  /** How many leading days precede x. */
  function BisectLeft(days: seq<int>, x: int): (k: nat)
    ensures k <= |days|
    ensures forall i | 0 <= i < k :: days[i] < x
    ensures k < |days| ==> x <= days[k]
  {
    if days == [] || x <= days[0] then 0 else 1 + BisectLeft(days[1..], x)
  }

  /** How many leading days are at most x. */
  function BisectRight(days: seq<int>, x: int): (k: nat)
    ensures k <= |days|
    ensures forall i | 0 <= i < k :: days[i] <= x
    ensures k < |days| ==> x < days[k]
  {
    if days == [] || x < days[0] then 0 else 1 + BisectRight(days[1..], x)
  }

  datatype Error = NegativeBuffer

  function Position(base: int, sessions: seq<int>, buffer: int): nat
    requires buffer >= 0
  {
    if buffer == 0 then BisectLeft(sessions, base) else BisectRight(sessions, base) + buffer - 1
  }

  /** Maps an availability date to a session; None is past the end of the calendar. */
  function Advance(base: int, sessions: seq<int>, buffer: int): Result<Option<int>, Error> {
    if buffer < 0 then Failure(NegativeBuffer)
    else
      var position := Position(base, sessions, buffer);
      Success(if position < |sessions| then Some(sessions[position]) else None)
  }

  /** The days of a calendar that satisfy an ordering against base, counted. */
  function CountAfter(sessions: seq<int>, base: int, limit: int): nat {
    if sessions == [] then 0 else
      (if base < sessions[0] <= limit then 1 else 0) + CountAfter(sessions[1..], base, limit)
  }

  lemma {:induction false} CountAfterIs(sessions: seq<int>, base: int, k: nat)
    requires Ascending(sessions) && BisectRight(sessions, base) <= k < |sessions|
    ensures CountAfter(sessions, base, sessions[k]) == k + 1 - BisectRight(sessions, base)
  {
    var tail := sessions[1..];
    assert Ascending(tail);
    if k == 0 {
      NoneAfter(tail, base, sessions[0]);
    } else {
      assert tail[k - 1] == sessions[k];
      if sessions[0] <= base {
        CountAfterIs(tail, base, k - 1);
      } else {
        assert BisectRight(tail, base) == 0;
        CountAfterIs(tail, base, k - 1);
      }
    }
  }

  lemma {:induction false} NoneAfter(sessions: seq<int>, base: int, limit: int)
    requires forall s | s in sessions :: limit < s
    ensures CountAfter(sessions, base, limit) == 0
  {
    if sessions != [] {
      assert forall s | s in sessions[1..] :: s in sessions;
      assert sessions[0] in sessions;
      NoneAfter(sessions[1..], base, limit);
    }
  }

  /** With no buffer the result is the least session on or after the date. */
  lemma AdvanceZeroIsLeast(base: int, sessions: seq<int>)
    requires Ascending(sessions)
    ensures var r := Advance(base, sessions, 0).value;
      && (r.Some? ==> r.value in sessions && base <= r.value && forall s | s in sessions && base <= s :: r.value <= s)
      && (r.None? ==> forall s | s in sessions :: s < base)
  {}

  /** With a buffer of n the result is the n-th session strictly after the date. */
  lemma AdvanceCounts(base: int, sessions: seq<int>, n: int)
    requires Ascending(sessions) && n >= 1
    ensures var r := Advance(base, sessions, n).value;
      && (r.Some? ==> r.value in sessions && base < r.value && CountAfter(sessions, base, r.value) == n)
      && (r.None? <==> |sessions| - BisectRight(sessions, base) < n)
  {
    var k := BisectRight(sessions, base) + n - 1;
    if k < |sessions| {
      CountAfterIs(sessions, base, k);
      assert sessions[BisectRight(sessions, base)] <= sessions[k];
    }
  }

  lemma BisectMonotone(a: int, b: int, sessions: seq<int>)
    requires Ascending(sessions) && a <= b
    ensures BisectLeft(sessions, a) <= BisectLeft(sessions, b)
    ensures BisectRight(sessions, a) <= BisectRight(sessions, b)
  {}

  /** Later dates and longer buffers never give an earlier session, and leaving the calendar is final. */
  lemma AdvanceMonotone(a: int, b: int, sessions: seq<int>, n: int, m: int)
    requires Ascending(sessions) && a <= b && 0 <= n <= m
    ensures var r, s := Advance(a, sessions, n).value, Advance(b, sessions, m).value;
      s.Some? ==> r.Some? && r.value <= s.value
  {
    var from, to := Position(a, sessions, n), Position(b, sessions, m);
    PositionMonotone(a, b, sessions, n, m);
    if to < |sessions| && from < to { assert sessions[from] < sessions[to]; }
  }

  lemma PositionMonotone(a: int, b: int, sessions: seq<int>, n: int, m: int)
    requires Ascending(sessions) && a <= b && 0 <= n <= m
    ensures Position(a, sessions, n) <= Position(b, sessions, m)
  {
    BisectMonotone(a, b, sessions);
    LeftBelowRight(b, sessions);
  }

  lemma LeftBelowRight(x: int, sessions: seq<int>)
    requires Ascending(sessions)
    ensures BisectLeft(sessions, x) <= BisectRight(sessions, x) <= BisectLeft(sessions, x) + 1
  {
    var i := BisectLeft(sessions, x);
    assert i + 1 < |sessions| ==> sessions[i] < sessions[i + 1];
  }

  lemma BisectExact(sessions: seq<int>, x: int, k: nat)
    requires Ascending(sessions) && k <= |sessions|
    requires forall i | 0 <= i < k :: sessions[i] < x
    requires k < |sessions| ==> x <= sessions[k]
    ensures BisectLeft(sessions, x) == k
  {}

  lemma BisectAtIndex(sessions: seq<int>, k: nat)
    requires Ascending(sessions) && k < |sessions|
    ensures BisectLeft(sessions, sessions[k]) == k && BisectRight(sessions, sessions[k]) == k + 1
  {
    var i, j := BisectLeft(sessions, sessions[k]), BisectRight(sessions, sessions[k]);
    assert forall n | 0 <= n < k :: sessions[n] < sessions[k];
    assert forall n | k < n < |sessions| :: sessions[k] < sessions[n];
  }

  /** Buffers add up: advancing by n and then by m is advancing by n + m, including off the calendar. */
  lemma AdvanceComposes(base: int, sessions: seq<int>, n: int, m: int)
    requires Ascending(sessions) && n >= 1 && m >= 0
    ensures var first := Advance(base, sessions, n).value;
      Advance(base, sessions, n + m).value ==
        if first.Some? then Advance(first.value, sessions, m).value else None
  {
    var k := BisectRight(sessions, base) + n - 1;
    if k < |sessions| { BisectAtIndex(sessions, k); }
  }
}
