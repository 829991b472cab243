/** Matching every declared input to its own frozen capture (items/api.py, _validate_input_selections). */
module InputMatching {
  import opened Wrappers

  datatype Mode = History | Snapshot | Versions

  /** Dates are day numbers; None is an undeclared bound. */
  datatype Interval = Interval(first: Option<int>, last: Option<int>)

  datatype Request =
    | RawRequest(source: string, dataset: string, fields: set<string>, historical: bool,
                 range: Interval, observed: Interval, mode: Mode, strict: bool)
    | ItemRequest(name: string, range: Interval, mode: Mode, strict: bool)

  /** Captured bounds against declared ones. An ordinary capture may be narrower only where nothing was
      declared; a narrowed window must lie inside the declaration. */
  predicate IntervalCovers(declared: Interval, captured: Interval, narrowed: bool) {
    var first, last, begin, stop := declared.first, declared.last, captured.first, captured.last;
    && !(begin.Some? && stop.Some? && stop.value < begin.value)
    && if narrowed then
         && !(first.Some? && (begin.None? || begin.value < first.value))
         && !(last.Some? && (stop.None? || stop.value > last.value))
       else
         && !(first.Some? && begin.Some? && begin.value > first.value)
         && !(last.Some? && stop.Some? && stop.value < last.value)
         && !(first.Some? && stop.Some? && stop.value < first.value)
         && !(last.Some? && begin.Some? && begin.value > last.value)
  }

  predicate Covers(declared: Request, captured: Request, narrowed: bool) {
    && declared.RawRequest? == captured.RawRequest?
    && (declared.RawRequest? ==>
      && declared.source == captured.source && declared.dataset == captured.dataset
      && (captured.fields != {} ==> declared.fields != {} && declared.fields <= captured.fields)
      && (declared.historical ==> captured.historical)
      && IntervalCovers(declared.observed, captured.observed, narrowed))
    && (declared.ItemRequest? ==> declared.name == captured.name)
    && declared.strict == captured.strict
    && (captured.mode == declared.mode || captured.mode.Versions?)
    && IntervalCovers(declared.range, captured.range, narrowed)
  }

  // ---------------------------------------------------------------- what covering means, day by day

  predicate Holds(i: Interval, day: int) {
    (i.first == None || i.first.value <= day) && (i.last == None || day <= i.last.value)
  }

  /** The captured days: at least one, and with narrowing none outside the declaration, otherwise every declared
      bound is among them. */
  ghost predicate Suffices(declared: Interval, captured: Interval, narrowed: bool) {
    && (exists day :: Holds(captured, day))
    && (narrowed ==> forall day | Holds(captured, day) :: Holds(declared, day))
    && (!narrowed ==> forall bound | bound in {declared.first, declared.last} && bound.Some? ::
          Holds(captured, bound.value))
  }

  /** A capture that can stand for a declaration: of the same raw dataset or the same item, with enough fields and
      days, equally strict, and read in the declared mode or as all versions. */
  ghost predicate Serves(declared: Request, captured: Request, narrowed: bool) {
    && captured.strict == declared.strict
    && captured.mode in {declared.mode, Versions}
    && Suffices(declared.range, captured.range, narrowed)
    && match (declared, captured)
       case (ItemRequest(wanted, _, _, _), ItemRequest(name, _, _, _)) => name == wanted
       case (RawRequest(_, _, wanted, asked, _, _, _, _), RawRequest(_, _, fields, kept, _, _, _, _)) =>
         && captured.source == declared.source && captured.dataset == declared.dataset
         && (fields == {} || (wanted != {} && forall field | field in wanted :: field in fields))
         && (kept || !asked)
         && Suffices(declared.observed, captured.observed, narrowed)
       case _ => false
  }

  lemma IntervalCoversExactly(declared: Interval, captured: Interval, narrowed: bool)
    ensures IntervalCovers(declared, captured, narrowed) <==> Suffices(declared, captured, narrowed)
  {
    var first, last, begin, stop := declared.first, declared.last, captured.first, captured.last;
    var inner := if begin.Some? then begin.value else if stop.Some? then stop.value else 0;
    var low := if first.Some? && first.value <= inner then first.value - 1 else inner;
    var high := if last.Some? && inner <= last.value then last.value + 1 else inner;
    var below, within, above := Holds(captured, low), Holds(captured, inner), Holds(captured, high);
    var ends := stop.Some? && Holds(captured, stop.value);
    if IntervalCovers(declared, captured, narrowed) {
      assert Holds(captured, inner);
    }
  }

  /** The tests made on a capture accept exactly the captures that can stand for the declaration. */
  lemma CoversExactly(declared: Request, captured: Request, narrowed: bool)
    ensures Covers(declared, captured, narrowed) <==> Serves(declared, captured, narrowed)
  {
    IntervalCoversExactly(declared.range, captured.range, narrowed);
    if declared.RawRequest? && captured.RawRequest? {
      IntervalCoversExactly(declared.observed, captured.observed, narrowed);
    }
    hide Suffices, IntervalCovers;
  }

  /** An unnarrowed capture holds every day of a fully bounded declaration. */
  lemma CoveredDays(declared: Interval, captured: Interval, day: int)
    requires IntervalCovers(declared, captured, false) && declared.first.Some? && declared.last.Some?
    requires declared.first.value <= day <= declared.last.value
    ensures (captured.first.Some? ==> captured.first.value <= day)
      && (captured.last.Some? ==> day <= captured.last.value)
  {}

  /** A narrowed capture reads nothing outside the declaration. */
  lemma NarrowedDays(declared: Interval, captured: Interval, day: int)
    requires IntervalCovers(declared, captured, true)
    requires (captured.first.Some? ==> captured.first.value <= day)
      && (captured.last.Some? ==> day <= captured.last.value)
    ensures (declared.first.Some? ==> declared.first.value <= day)
      && (declared.last.Some? ==> day <= declared.last.value)
  {}

  // ---------------------------------------------------------------- matchings

  datatype Graph = Graph(inputs: seq<Request>, actual: seq<Request>, narrowed: bool) {

    predicate Edge(i: nat, c: nat) {
      i < |inputs| && c < |actual| && Covers(inputs[i], actual[c], narrowed)
    }

    /** Candidate c serves input m[c]. */
    ghost predicate Partial(m: map<nat, nat>) {
      forall c | c in m :: Edge(m[c], c)
    }

    /** A one-to-one assignment of every input to a capture that can stand for it. */
    ghost predicate Perfect(assignment: seq<nat>) {
      && |assignment| == |inputs|
      && (forall i | 0 <= i < |inputs| ::
            assignment[i] < |actual| && Serves(inputs[i], actual[assignment[i]], narrowed))
      && (forall i, j | 0 <= i < j < |inputs| :: assignment[i] != assignment[j])
    }

    ghost predicate Reachable(i: nat, seen: set<nat>) {
      forall c: nat | Edge(i, c) :: c in seen
    }

    /** Every candidate in a set is taken, and the input it serves has all its candidates in seen. */
    ghost predicate Closed(m: map<nat, nat>, candidates: set<nat>, seen: set<nat>) {
      forall c | c in candidates :: c in m && Reachable(m[c], seen)
    }
  }

  ghost predicate OneToOne(m: map<nat, nat>, except: set<nat>) {
    forall c, d | c in m && d in m && c !in except && d !in except && c != d :: m[c] != m[d]
  }

  /** The inputs served by candidates outside a set. */
  ghost function Served(m: map<nat, nat>, except: set<nat>): set<nat> {
    set c | c in m && c !in except :: m[c]
  }

  /** An augmentation: nothing changes inside the visited set, and outside it one more input is served. */
  ghost predicate Augmented(m: map<nat, nat>, n: map<nat, nat>, visited: set<nat>, index: nat) {
    && (forall c | c in visited :: (c in n <==> c in m) && (c in n ==> n[c] == m[c]))
    && OneToOne(n, visited)
    && Served(n, visited) == Served(m, visited) + {index}
  }

  lemma TakeFree(m: map<nat, nat>, visited: set<nat>, candidate: nat, index: nat)
    requires OneToOne(m, visited) && index !in Served(m, visited)
    requires candidate !in m && candidate !in visited
    ensures Augmented(m, m[candidate := index], visited, index)
  {
    var n := m[candidate := index];
    forall v ensures v in Served(n, visited) <==> v in Served(m, visited) + {index} {
      if v in Served(m, visited) {
        var c :| c in m && c !in visited && m[c] == v;
        assert n[c] == v;
      }
      assert n[candidate] == index;
      if v in Served(n, visited) {
        var c :| c in n && c !in visited && n[c] == v;
        assert c == candidate || m[c] == v;
      }
    }
    forall c, d | c in n && d in n && c !in visited && d !in visited && c != d ensures n[c] != n[d] {
      if c != candidate { assert m[c] in Served(m, visited); }
      if d != candidate { assert m[d] in Served(m, visited); }
    }
  }

  /** After the displaced input found another candidate, its old one is free for the new input. */
  lemma TakeDisplaced(m: map<nat, nat>, n: map<nat, nat>, visited: set<nat>, seen: set<nat>, candidate: nat, index: nat)
    requires OneToOne(m, visited) && index !in Served(m, visited) && visited <= seen
    requires candidate in m && candidate in seen && candidate !in visited
    requires Augmented(m, n, seen, m[candidate])
    ensures Augmented(m, n[candidate := index], visited, index)
  {
    var r := n[candidate := index];
    forall c | c in r && c !in visited && c != candidate ensures r[c] in Served(m, visited) {
      if c in seen {
        assert r[c] == m[c];
      } else {
        assert n[c] in Served(n, seen);
        assert m[candidate] in Served(m, visited);
        assert Served(m, seen) <= Served(m, visited);
      }
    }
    forall v | v in Served(m, visited) ensures v in Served(r, visited) {
      var c :| c in m && c !in visited && m[c] == v;
      if c in seen && c != candidate {
        assert r[c] == v;
      } else {
        assert v in Served(m, seen) + {m[candidate]};
        var d :| d in n && d !in seen && n[d] == v;
        assert r[d] == v;
      }
    }
    assert r[candidate] == index;
    assert Served(r, visited) == Served(m, visited) + {index};
    forall c, d | c in r && d in r && c !in visited && d !in visited && c != d ensures r[c] != r[d] {
      if c == candidate || d == candidate {
      } else if c in seen && d in seen {
        assert m[c] != m[d];
      } else if c !in seen && d !in seen {
        assert n[c] != n[d];
      } else {
        var inner, outer := if c in seen then c else d, if c in seen then d else c;
        assert n[outer] in Served(n, seen);
        SeenDiffers(m, visited, seen, inner, candidate, n[outer]);
      }
    }
  }

  lemma SeenDiffers(m: map<nat, nat>, visited: set<nat>, seen: set<nat>, inner: nat, candidate: nat, v: nat)
    requires OneToOne(m, visited) && visited <= seen && inner in m && inner in seen && inner !in visited
    requires candidate in m && candidate !in visited && inner != candidate
    requires v in Served(m, seen) + {m[candidate]}
    ensures m[inner] != v
  {
    if v != m[candidate] {
      var c :| c in m && c !in seen && m[c] == v;
    }
  }

  // ---------------------------------------------------------------- the augmenting search

  function Upto(n: nat): (r: set<nat>)
    ensures forall i: nat :: i in r <==> i < n
  {
    if n == 0 then {} else Upto(n - 1) + {n - 1}
  }

  class Matcher {
    const graph: Graph
    /** Which input each taken candidate serves. */
    var matched: map<nat, nat>

    constructor (g: Graph)
      ensures graph == g && matched == map[]
    {
      graph := g;
      matched := map[];
    }

    ghost function Unvisited(visited: set<nat>): set<nat> {
      Upto(|graph.actual|) - visited
    }

    /** Searches for a candidate for an input, displacing inputs that can move. On failure nothing
        changes and the visited candidates are exactly taken by inputs that have no other choice. */
    method Match(index: nat, visited: set<nat>) returns (found: bool, seen: set<nat>)
      requires index < |graph.inputs| && graph.Partial(matched)
      requires forall c | c in visited :: c < |graph.actual|
      requires OneToOne(matched, visited) && index !in Served(matched, visited)
      modifies this
      decreases Unvisited(visited)
      ensures visited <= seen && forall c | c in seen :: c < |graph.actual|
      ensures found ==> graph.Partial(matched) && Augmented(old(matched), matched, visited, index)
      ensures !found ==> matched == old(matched)
      ensures !found ==> graph.Reachable(index, seen) && graph.Closed(matched, seen - visited, seen)
    {
      seen := visited;
      for candidate := 0 to |graph.actual|
        invariant matched == old(matched)
        invariant visited <= seen && forall c | c in seen :: c < |graph.actual|
        invariant forall c: nat | c < candidate && graph.Edge(index, c) :: c in seen
        invariant graph.Closed(matched, seen - visited, seen)
      {
        if candidate in seen || !graph.Edge(index, candidate) {
          continue;
        }
        ghost var before := seen;
        seen := seen + {candidate};
        assert Unvisited(visited) > Unvisited(seen) by {
          assert candidate in Unvisited(visited) && candidate !in Unvisited(seen);
        }
        if candidate !in matched {
          TakeFree(matched, visited, candidate, index);
          matched := matched[candidate := index];
          return true, seen;
        }
        DisplacedIsFree(matched, visited, seen, candidate);
        var deeper;
        found, deeper := Match(matched[candidate], seen);
        if found {
          TakeDisplaced(old(matched), matched, visited, seen, candidate, index);
          matched := matched[candidate := index];
          return true, deeper;
        }
        ClosedGrows(graph, matched, visited, before, seen, deeper, candidate);
        seen := deeper;
      }
      return false, seen;
    }

    /** Accepts exactly the receipts whose captures can be assigned one-to-one to the declared inputs. */
    method Validate() returns (accepted: bool)
      requires matched == map[]
      modifies this
      ensures accepted <==> |graph.actual| == |graph.inputs| && exists assignment :: graph.Perfect(assignment)
    {
      if |graph.actual| != |graph.inputs| {
        return false;
      }
      for index := 0 to |graph.inputs|
        invariant graph.Partial(matched) && OneToOne(matched, {})
        invariant Served(matched, {}) == Upto(index)
      {
        var found, seen := Match(index, {});
        if !found {
          HallViolation(graph, matched, index, seen);
          return false;
        }
      }
      AssignmentExists(graph, matched);
      return true;
    }
  }

  lemma DisplacedIsFree(m: map<nat, nat>, visited: set<nat>, seen: set<nat>, candidate: nat)
    requires OneToOne(m, visited) && visited <= seen && candidate in m && candidate in seen && candidate !in visited
    ensures OneToOne(m, seen) && m[candidate] !in Served(m, seen)
  {}

  lemma ClosedGrows(g: Graph, m: map<nat, nat>, visited: set<nat>, before: set<nat>, seen: set<nat>, deeper: set<nat>,
                    candidate: nat)
    requires visited <= before && seen == before + {candidate} && seen <= deeper && candidate in m
    requires g.Closed(m, before - visited, before) && g.Closed(m, deeper - seen, deeper)
    requires g.Reachable(m[candidate], deeper)
    ensures g.Closed(m, deeper - visited, deeper)
  {
    forall c | c in deeper - visited ensures c in m && g.Reachable(m[c], deeper) {
      if c in before {
        assert c in before - visited;
      } else if c != candidate {
        assert c in deeper - seen;
      }
    }
  }

  // ---------------------------------------------------------------- counting

  lemma {:induction false} ImageSize(m: map<nat, nat>, candidates: set<nat>)
    requires OneToOne(m, {}) && candidates <= m.Keys
    ensures |set c | c in candidates :: m[c]| == |candidates|
  {
    var image := set c | c in candidates :: m[c];
    if candidates != {} {
      var c :| c in candidates;
      var rest := candidates - {c};
      ImageSize(m, rest);
      var smaller := set d | d in rest :: m[d];
      assert image == smaller + {m[c]} && m[c] !in smaller;
    } else {
      assert image == {};
    }
  }

  /** A one-to-one assignment into a set cannot serve more inputs than the set has candidates. */
  lemma {:induction false} Pigeonhole(assignment: seq<nat>, served: set<nat>, candidates: set<nat>)
    requires forall i | i in served :: i < |assignment| && assignment[i] in candidates
    requires forall i, j | i in served && j in served && i != j :: assignment[i] != assignment[j]
    ensures |served| <= |candidates|
  {
    if served != {} {
      var i :| i in served;
      Pigeonhole(assignment, served - {i}, candidates - {assignment[i]});
    }
  }

  /** The inputs a failed search got stuck on: the one searched for and those its candidates serve. */
  ghost function Stuck(m: map<nat, nat>, index: nat, seen: set<nat>): set<nat>
    requires seen <= m.Keys
  {
    (set c | c in seen :: m[c]) + {index}
  }

  lemma StuckOutnumber(m: map<nat, nat>, index: nat, seen: set<nat>)
    requires OneToOne(m, {}) && seen <= m.Keys && index !in Served(m, {})
    ensures |Stuck(m, index, seen)| == |seen| + 1
  {
    var image := set c | c in seen :: m[c];
    ImageSize(m, seen);
    assert image <= Served(m, {});
    assert index !in image;
  }

  lemma StuckStay(g: Graph, m: map<nat, nat>, index: nat, seen: set<nat>, i: nat)
    requires g.Partial(m) && seen <= m.Keys && index < |g.inputs|
    requires g.Reachable(index, seen) && forall c | c in seen :: g.Reachable(m[c], seen)
    requires i in Stuck(m, index, seen)
    ensures i < |g.inputs| && g.Reachable(i, seen)
  {
    if i != index {
      var c :| c in seen && m[c] == i;
      assert g.Edge(m[c], c);
    }
  }

  /** A failed search exhibits inputs that together have too few candidates. */
  lemma HallViolation(g: Graph, m: map<nat, nat>, index: nat, seen: set<nat>)
    requires g.Partial(m) && OneToOne(m, {}) && index !in Served(m, {}) && index < |g.inputs|
    requires g.Reachable(index, seen) && g.Closed(m, seen - {}, seen)
    ensures forall assignment :: !g.Perfect(assignment)
  {
    assert seen - {} == seen;
    StuckOutnumber(m, index, seen);
    forall assignment ensures !g.Perfect(assignment) {
      if g.Perfect(assignment) {
        forall i | i in Stuck(m, index, seen) ensures i < |assignment| && assignment[i] in seen {
          StuckStay(g, m, index, seen, i);
          CoversExactly(g.inputs[i], g.actual[assignment[i]], g.narrowed);
          assert g.Edge(i, assignment[i]);
        }
        DistinctServed(g, assignment, Stuck(m, index, seen));
        Pigeonhole(assignment, Stuck(m, index, seen), seen);
      }
    }
  }

  lemma DistinctServed(g: Graph, assignment: seq<nat>, served: set<nat>)
    requires g.Perfect(assignment) && forall i | i in served :: i < |assignment|
    ensures forall i, j | i in served && j in served && i != j :: assignment[i] != assignment[j]
  {
    forall i, j | i in served && j in served && i != j ensures assignment[i] != assignment[j] {
      if i < j { assert assignment[i] != assignment[j]; } else { assert assignment[j] != assignment[i]; }
    }
  }

  lemma {:induction false} AssignPrefix(g: Graph, m: map<nat, nat>, n: nat) returns (assignment: seq<nat>)
    requires g.Partial(m) && n <= |g.inputs| && forall i: nat | i < n :: i in Served(m, {})
    ensures |assignment| == n && forall i | 0 <= i < n :: assignment[i] in m && m[assignment[i]] == i
  {
    assignment := [];
    if n > 0 {
      var prefix := AssignPrefix(g, m, n - 1);
      assert n - 1 in Served(m, {});
      var c :| c in m && m[c] == n - 1;
      assignment := prefix + [c];
    }
  }

  /** A full matching, read from the inputs' side, is the assignment. */
  lemma AssignmentExists(g: Graph, m: map<nat, nat>)
    requires g.Partial(m) && Served(m, {}) == Upto(|g.inputs|)
    ensures exists assignment :: g.Perfect(assignment)
  {
    var assignment := AssignPrefix(g, m, |g.inputs|);
    forall i | 0 <= i < |g.inputs|
      ensures assignment[i] < |g.actual| && Serves(g.inputs[i], g.actual[assignment[i]], g.narrowed)
    {
      var c: nat := assignment[i];
      assert g.Edge(m[c], c);
      CoversExactly(g.inputs[i], g.actual[assignment[i]], g.narrowed);
    }
    assert g.Perfect(assignment);
  }
}
