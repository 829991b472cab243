/** Splitting a publication toward a byte target without reordering it (items/api.py, _baseline_publication_groups). */
module PublicationGroups {
  import opened Sorting

  datatype Row = Row(version: int, time: int, asset: string)

  /** The order of text: by the first differing character, a prefix first. */
  predicate TextPrecedes(a: string, b: string) {
    a == [] || (b != [] && (a[0] < b[0] || (a[0] == b[0] && TextPrecedes(a[1..], b[1..]))))
  }

  predicate Precedes(a: Row, b: Row) {
    || a.version < b.version
    || (a.version == b.version && (a.time < b.time || (a.time == b.time && TextPrecedes(a.asset, b.asset))))
  }

  lemma {:induction false} TextTotal(a: string, b: string)
    ensures TextPrecedes(a, b) || TextPrecedes(b, a)
  {
    if a != [] && b != [] { TextTotal(a[1..], b[1..]); }
  }

  lemma {:induction false} TextTransitive(a: string, b: string, c: string)
    requires TextPrecedes(a, b) && TextPrecedes(b, c)
    ensures TextPrecedes(a, c)
  {
    if a != [] && b != [] && c != [] && a[0] == b[0] == c[0] { TextTransitive(a[1..], b[1..], c[1..]); }
  }

  lemma RowOrderTotal()
    ensures TotalPreorder(Precedes)
  {
    forall a: Row, b: Row ensures Precedes(a, b) || Precedes(b, a) { TextTotal(a.asset, b.asset); }
    forall a: Row, b: Row, c: Row | Precedes(a, b) && Precedes(b, c) ensures Precedes(a, c) {
      if a.version == b.version == c.version && a.time == b.time == c.time {
        TextTransitive(a.asset, b.asset, c.asset);
      }
    }
  }

  /** Rows published together under one date. */
  datatype Group = Group(date: int, part: seq<Row>)

  function Flatten(groups: seq<Group>): seq<Row> {
    if groups == [] then [] else Flatten(groups[..|groups| - 1]) + groups[|groups| - 1].part
  }

  /** The parts waiting on the stack, in the order they will come off it. */
  function Waiting(stack: seq<seq<Row>>): seq<Row> {
    if stack == [] then [] else stack[|stack| - 1] + Waiting(stack[..|stack| - 1])
  }

  function StackWeight(stack: seq<seq<Row>>): int {
    if stack == [] then 0 else StackWeight(stack[..|stack| - 1]) + (2 * |stack[|stack| - 1]| - 1)
  }

  function LatestVersion(part: seq<Row>): (r: int)
    requires part != []
    ensures forall row | row in part :: row.version <= r
    ensures exists row :: row in part && row.version == r
  {
    assert forall row :: row in part <==> row == part[0] || row in part[1..];
    if |part| == 1 then part[0].version else
      var rest := LatestVersion(part[1..]);
      if part[0].version >= rest then part[0].version else rest
  }

  /** A group is dated by its latest row and either fits or cannot be divided. */
  ghost predicate Sized(g: Group, rows: nat, limit: nat, size: seq<Row> -> nat) {
    && 1 <= |g.part| <= rows && (size(g.part) <= limit || |g.part| == 1)
    && g.date == LatestVersion(g.part)
  }

  ghost predicate AllSized(groups: seq<Group>, rows: nat, limit: nat, size: seq<Row> -> nat) {
    forall g | g in groups :: Sized(g, rows, limit, size)
  }

  ghost predicate Parts(stack: seq<seq<Row>>, rows: nat) {
    forall p | p in stack :: 1 <= |p| <= rows
  }

  lemma Push(stack: seq<seq<Row>>, part: seq<Row>)
    ensures Waiting(stack + [part]) == part + Waiting(stack)
    ensures StackWeight(stack + [part]) == StackWeight(stack) + 2 * |part| - 1
  {
    assert (stack + [part])[..|stack|] == stack;
  }

  lemma {:induction false} WeightBounds(stack: seq<seq<Row>>, rows: nat)
    requires Parts(stack, rows)
    ensures StackWeight(stack) >= |stack|
  {
    if stack != [] {
      WeightBounds(stack[..|stack| - 1], rows);
      assert stack[|stack| - 1] in stack;
    }
  }

  lemma FlattenAppend(groups: seq<Group>, g: Group)
    ensures Flatten(groups + [g]) == Flatten(groups) + g.part
  {
    assert (groups + [g])[..|groups|] == groups;
  }

  /** Emitted groups followed by the waiting parts are the chunk, in order. */
  ghost predicate InProgress(groups: seq<Group>, stack: seq<seq<Row>>, chunk: seq<Row>) {
    Flatten(groups) + Waiting(stack) == chunk
  }

  lemma HalvesWait(groups: seq<Group>, rest: seq<seq<Row>>, part: seq<Row>, middle: nat, chunk: seq<Row>)
    requires InProgress(groups, rest + [part], chunk) && 0 < middle < |part|
    ensures InProgress(groups, rest + [part[middle..]] + [part[..middle]], chunk)
    ensures StackWeight(rest + [part[middle..]] + [part[..middle]]) < StackWeight(rest + [part])
  {
    Push(rest, part);
    Push(rest, part[middle..]);
    Push(rest + [part[middle..]], part[..middle]);
    assert part[..middle] + (part[middle..] + Waiting(rest)) == part + Waiting(rest);
  }

  lemma PartLeaves(groups: seq<Group>, rest: seq<seq<Row>>, part: seq<Row>, date: int, chunk: seq<Row>)
    requires InProgress(groups, rest + [part], chunk) && part != []
    ensures InProgress(groups + [Group(date, part)], rest, chunk)
    ensures StackWeight(rest) < StackWeight(rest + [part])
  {
    Push(rest, part);
    FlattenAppend(groups, Group(date, part));
    assert Flatten(groups) + (part + Waiting(rest)) == Flatten(groups) + part + Waiting(rest);
  }

  /** A half of rows that are together over the byte target. */
  ghost predicate Divided(part: seq<Row>, limit: nat, size: seq<Row> -> nat) {
    exists whole: seq<Row> :: |whole| > 1 && size(whole) > limit
      && part in {whole[..|whole| / 2], whole[|whole| / 2..]}
  }

  /** Emitted groups and waiting parts are the chunk, of the right sizes, and divided only where needed. */
  ghost predicate Splitting(groups: seq<Group>, pending: seq<seq<Row>>, chunk: seq<Row>, rows: nat, limit: nat,
                            size: seq<Row> -> nat)
  {
    && Parts(pending, rows) && AllSized(groups, rows, limit, size) && InProgress(groups, pending, chunk)
    && (forall part | part in pending :: part == chunk || Divided(part, limit, size))
    && (forall g | g in groups :: g.part == chunk || Divided(g.part, limit, size))
  }

  lemma SplitBegins(chunk: seq<Row>, rows: nat, limit: nat, size: seq<Row> -> nat)
    requires 1 <= |chunk| <= rows
    ensures Splitting([], [chunk], chunk, rows, limit, size)
  {
    Push([], chunk);
    assert [] + [chunk] == [chunk];
  }

  lemma PartWaits(groups: seq<Group>, pending: seq<seq<Row>>, chunk: seq<Row>, rows: nat, limit: nat,
                  size: seq<Row> -> nat)
    requires Splitting(groups, pending, chunk, rows, limit, size) && pending != []
    ensures pending == pending[..|pending| - 1] + [pending[|pending| - 1]] && 1 <= |pending[|pending| - 1]| <= rows
    ensures StackWeight(pending) >= 0
  {
    hide InProgress, Divided, StackWeight, AllSized;
    assert Parts(pending, rows) && pending[|pending| - 1] in pending;
    hide *;
    WeightBounds(pending, rows);
  }

  lemma SplitDivides(groups: seq<Group>, rest: seq<seq<Row>>, part: seq<Row>, chunk: seq<Row>, rows: nat, limit: nat,
                     size: seq<Row> -> nat)
    requires Splitting(groups, rest + [part], chunk, rows, limit, size) && |part| > 1 && size(part) > limit
    ensures var middle := |part| / 2;
      var pending := rest + [part[middle..]] + [part[..middle]];
      && Splitting(groups, pending, chunk, rows, limit, size)
      && StackWeight(pending) < StackWeight(rest + [part])
  {
    var middle := |part| / 2;
    HalvesWait(groups, rest, part, middle, chunk);
    assert part in rest + [part] && forall p | p in rest :: p in rest + [part];
    assert Divided(part[..middle], limit, size) && Divided(part[middle..], limit, size);
    hide InProgress, StackWeight, Divided, AllSized;
  }

  lemma SplitEmits(groups: seq<Group>, rest: seq<seq<Row>>, part: seq<Row>, chunk: seq<Row>, rows: nat, limit: nat,
                   size: seq<Row> -> nat)
    requires Splitting(groups, rest + [part], chunk, rows, limit, size) && 1 <= |part| <= rows
    requires |part| == 1 || size(part) <= limit
    ensures Splitting(groups + [Group(LatestVersion(part), part)], rest, chunk, rows, limit, size)
    ensures StackWeight(rest) < StackWeight(rest + [part])
  {
    PartLeaves(groups, rest, part, LatestVersion(part), chunk);
    assert part in rest + [part] && forall p | p in rest :: p in rest + [part];
    hide InProgress, StackWeight, Divided, LatestVersion;
  }

  lemma SplitEnds(groups: seq<Group>, chunk: seq<Row>, rows: nat, limit: nat, size: seq<Row> -> nat)
    requires Splitting(groups, [], chunk, rows, limit, size)
    ensures Flatten(groups) == chunk && AllSized(groups, rows, limit, size)
    ensures forall g | g in groups :: g.part == chunk || Divided(g.part, limit, size)
  {
    hide Divided, AllSized, Flatten;
  }

  /** One chunk through the stack: the later half waits while the earlier one is looked at first. */
  method SplitChunk(chunk: seq<Row>, rows: nat, limit: nat, size: seq<Row> -> nat) returns (groups: seq<Group>)
    requires 1 <= |chunk| <= rows
    ensures Flatten(groups) == chunk
    ensures AllSized(groups, rows, limit, size)
    ensures forall g | g in groups :: g.part == chunk || Divided(g.part, limit, size)
  {
    hide *;
    groups := [];
    var pending := [chunk];
    SplitBegins(chunk, rows, limit, size);
    while pending != []
      invariant Splitting(groups, pending, chunk, rows, limit, size)
      decreases StackWeight(pending)
    {
      PartWaits(groups, pending, chunk, rows, limit, size);
      var part := pending[|pending| - 1];
      ghost var rest := pending[..|pending| - 1];
      pending := pending[..|pending| - 1];
      if |part| > 1 && size(part) > limit {
        var middle := |part| / 2;
        SplitDivides(groups, rest, part, chunk, rows, limit, size);
        pending := pending + [part[middle..]] + [part[..middle]];
      } else {
        SplitEmits(groups, rest, part, chunk, rows, limit, size);
        groups := groups + [Group(LatestVersion(part), part)];
      }
    }
    SplitEnds(groups, chunk, rows, limit, size);
  }

  lemma {:induction false} FlattenJoins(a: seq<Group>, b: seq<Group>)
    ensures Flatten(a + b) == Flatten(a) + Flatten(b)
  {
    if b == [] {
      assert a + b == a;
    } else {
      var init, top := b[..|b| - 1], b[|b| - 1];
      FlattenJoins(a, init);
      var all := a + b;
      assert all[..|all| - 1] == a + init && all[|all| - 1] == top;
      assert Flatten(all) == Flatten(a + init) + top.part;
      assert (Flatten(a) + Flatten(init)) + top.part == Flatten(a) + (Flatten(init) + top.part);
    }
  }

  /** Group dates never decrease. */
  ghost predicate Chronological(groups: seq<Group>) {
    forall i | 0 < i < |groups| :: groups[i - 1].date <= groups[i].date
  }

  /** The part before the last row of a flattened group stands in front of the next group's rows. */
  lemma NextGroupIsLater(earlier: seq<Row>, last: Group, top: Group)
    requires last.part != [] && top.part != [] && last.date == LatestVersion(last.part)
    requires SortedBy(earlier + last.part + top.part, Precedes)
    ensures last.date <= top.part[0].version
  {
    var all := earlier + last.part + top.part;
    var a :| a in last.part && a.version == last.date;
    var k :| 0 <= k < |last.part| && last.part[k] == a;
    assert all[|earlier| + k] == a && all[|earlier| + |last.part|] == top.part[0];
    assert Precedes(a, top.part[0]);
  }

  lemma SortedPrefix(a: seq<Row>, b: seq<Row>)
    requires SortedBy(a + b, Precedes)
    ensures SortedBy(a, Precedes)
  {
    assert a == (a + b)[..|a|];
  }

  /** The groups of an ordered publication are dated in order. */
  lemma {:induction false} OrderedGroupsAreChronological(groups: seq<Group>, rows: nat, limit: nat,
                                                         size: seq<Row> -> nat)
    requires AllSized(groups, rows, limit, size) && SortedBy(Flatten(groups), Precedes)
    ensures Chronological(groups)
  {
    if groups != [] {
      var init, top := groups[..|groups| - 1], groups[|groups| - 1];
      SortedPrefix(Flatten(init), top.part);
      OrderedGroupsAreChronological(init, rows, limit, size);
      assert Sized(top, rows, limit, size);
      if init != [] {
        var last := init[|init| - 1];
        assert last in groups && Sized(last, rows, limit, size);
        NextGroupIsLater(Flatten(init[..|init| - 1]), last, top);
      }
      forall i | 0 < i < |groups| ensures groups[i - 1].date <= groups[i].date {
        if i < |init| { assert init[i - 1].date <= init[i].date; }
      }
    }
  }

  /** Text order by the first place of difference; a proper prefix comes first. */
  ghost predicate TextBefore(a: string, b: string) {
    exists k :: 0 <= k <= |a| && k <= |b| && a[..k] == b[..k] && (k == |a| || (k < |b| && a[k] < b[k]))
  }

  lemma {:induction false} TextIs(a: string, b: string)
    ensures TextPrecedes(a, b) <==> TextBefore(a, b)
  {
    if a == [] {
      assert a[..0] == b[..0];
    } else if b != [] {
      TextIs(a[1..], b[1..]);
      if k :| 0 <= k <= |a| && k <= |b| && a[..k] == b[..k] && (k == |a| || (k < |b| && a[k] < b[k])) {
        if k > 0 {
          assert a[0] == a[..k][0] == b[..k][0] == b[0];
          assert a[1..][..k - 1] == a[..k][1..] == b[..k][1..] == b[1..][..k - 1];
        }
      }
      if a[0] < b[0] {
        assert a[..0] == b[..0];
      } else if a[0] == b[0] && TextBefore(a[1..], b[1..]) {
        var k :| 0 <= k <= |a[1..]| && k <= |b[1..]| && a[1..][..k] == b[1..][..k]
          && (k == |a[1..]| || (k < |b[1..]| && a[1..][k] < b[1..][k]));
        assert a[..k + 1] == [a[0]] + a[1..][..k] && b[..k + 1] == [b[0]] + b[1..][..k];
      }
    }
  }

  /** Rows in the order of their version dates, then times, then assets. */
  ghost predicate InOrder(rows: seq<Row>) {
    forall i, j | 0 <= i < j < |rows| ::
      && rows[i].version <= rows[j].version
      && (rows[i].version == rows[j].version ==> rows[i].time <= rows[j].time)
      && (rows[i].version == rows[j].version && rows[i].time == rows[j].time ==>
            TextBefore(rows[i].asset, rows[j].asset))
  }

  lemma SortedInOrder(rows: seq<Row>)
    requires SortedBy(rows, Precedes)
    ensures InOrder(rows)
  {
    forall i, j | 0 <= i < j < |rows| && TextPrecedes(rows[i].asset, rows[j].asset)
      ensures TextBefore(rows[i].asset, rows[j].asset)
    {
      TextIs(rows[i].asset, rows[j].asset);
    }
  }

  /** The n-th slice of a given number of rows; the last one may be shorter. */
  ghost predicate Slice(part: seq<Row>, all: seq<Row>, rows: nat, n: nat) {
    var at := n * rows;
    at < |all| && part == (if at + rows < |all| then all[at..at + rows] else all[at..])
  }

  lemma NextSlice(all: seq<Row>, rows: nat, n: nat) returns (stop: nat)
    requires rows >= 1 && n * rows < |all|
    ensures stop == (if n * rows + rows < |all| then n * rows + rows else |all|)
    ensures Slice(all[n * rows..stop], all, rows, n) && all[..stop] == all[..n * rows] + all[n * rows..stop]
    ensures stop < |all| ==> stop == (n + 1) * rows
  {
    var at := n * rows;
    assert (n + 1) * rows == at + rows;
    stop := if at + rows < |all| then at + rows else |all|;
    assert all[at..|all|] == all[at..];
  }

  /** A group is a slice of all rows, or was divided because it had to be. */
  ghost predicate Placed(part: seq<Row>, all: seq<Row>, rows: nat, limit: nat, size: seq<Row> -> nat) {
    Divided(part, limit, size) || exists n :: Slice(part, all, rows, n)
  }

  ghost predicate Done(groups: seq<Group>, all: seq<Row>, at: nat, rows: nat, limit: nat, size: seq<Row> -> nat) {
    && at <= |all| && Flatten(groups) == all[..at] && AllSized(groups, rows, limit, size)
    && forall g | g in groups :: Placed(g.part, all, rows, limit, size)
  }

  lemma SliceDone(groups: seq<Group>, all: seq<Row>, n: nat, more: seq<Group>, rows: nat, limit: nat,
                  size: seq<Row> -> nat) returns (stop: nat)
    requires rows >= 1 && n * rows < |all| && Done(groups, all, n * rows, rows, limit, size)
    requires AllSized(more, rows, limit, size)
    requires var chunk := all[n * rows..if n * rows + rows < |all| then n * rows + rows else |all|];
      Flatten(more) == chunk && forall g | g in more :: g.part == chunk || Divided(g.part, limit, size)
    ensures stop == (if n * rows + rows < |all| then n * rows + rows else |all|)
    ensures Done(groups + more, all, stop, rows, limit, size) && (stop < |all| ==> stop == (n + 1) * rows)
  {
    stop := NextSlice(all, rows, n);
    FlattenJoins(groups, more);
    hide Flatten, Slice, Divided, Sized;
    forall g | g in more ensures Placed(g.part, all, rows, limit, size) {}
  }

  lemma NothingDone(all: seq<Row>, rows: nat, limit: nat, size: seq<Row> -> nat)
    ensures Done([], all, 0, rows, limit, size)
  {}

  lemma AllDone(groups: seq<Group>, all: seq<Row>, rows: nat, limit: nat, size: seq<Row> -> nat)
    requires Done(groups, all, |all|, rows, limit, size) && SortedBy(all, Precedes)
    ensures Flatten(groups) == all && AllSized(groups, rows, limit, size) && Chronological(groups)
    ensures forall g | g in groups :: Placed(g.part, all, rows, limit, size)
  {
    assert all[..|all|] == all;
    OrderedGroupsAreChronological(groups, rows, limit, size);
    hide Placed, Chronological, Sized, SortedBy, Flatten;
  }

  /** Groups hold the rows in order, respect the row and byte targets without needless division, and are dated in
      order. */
  method Groups(frame: seq<Row>, rows: nat, limit: nat, size: seq<Row> -> nat) returns (groups: seq<Group>)
    requires rows >= 1
    ensures InOrder(Flatten(groups)) && multiset(Flatten(groups)) == multiset(frame)
    ensures AllSized(groups, rows, limit, size)
    ensures forall g | g in groups :: Placed(g.part, Flatten(groups), rows, limit, size)
    ensures Chronological(groups)
  {
    hide *;
    var ordered := Sort(frame, Precedes);
    RowOrderTotal();
    SortSorts(frame, Precedes);
    SortedInOrder(ordered);
    SortPermutes(frame, Precedes);
    NothingDone(ordered, rows, limit, size);
    groups := [];
    var at := 0;
    ghost var n: nat := 0;
    while at < |ordered|
      invariant at <= |ordered| && Done(groups, ordered, at, rows, limit, size)
      invariant at < |ordered| ==> at == n * rows
    {
      var stop := if at + rows < |ordered| then at + rows else |ordered|;
      var more := SplitChunk(ordered[at..stop], rows, limit, size);
      ghost var next := SliceDone(groups, ordered, n, more, rows, limit, size);
      groups, at, n := groups + more, stop, n + 1;
    }
    AllDone(groups, ordered, rows, limit, size);
  }
}
