/** Registering items while their dependency graph stays acyclic (items/api.py, _register and _reaches). */
module Registration {
  import opened Wrappers

  /** Item edges: the items each item declares as inputs. */
  type Graph = map<string, seq<string>>

  function Successors(g: Graph, x: string): seq<string> {
    if x in g then g[x] else []
  }

  ghost predicate IsPath(g: Graph, path: seq<string>) {
    path != [] && forall i | 0 <= i < |path| - 1 :: path[i] in g && path[i + 1] in g[path[i]]
  }

  ghost predicate PathFromTo(g: Graph, path: seq<string>, a: string, b: string) {
    IsPath(g, path) && path[0] == a && path[|path| - 1] == b
  }

  ghost predicate Reaches(g: Graph, a: string, b: string) {
    exists path :: PathFromTo(g, path, a, b)
  }

  /** No edge leads back to where it came from. */
  ghost predicate Acyclic(g: Graph) {
    forall x, y | x in g && y in g[x] :: !Reaches(g, y, x)
  }

  ghost function Nodes(g: Graph): set<string> {
    g.Keys + set x, y | x in g && y in g[x] :: y
  }

  // ---------------------------------------------------------------- paths

  lemma ReachesSelf(g: Graph, a: string)
    ensures Reaches(g, a, a)
  {
    assert PathFromTo(g, [a], a, a);
  }

  lemma EdgeThenReaches(g: Graph, a: string, b: string, c: string)
    requires b in Successors(g, a) && Reaches(g, b, c)
    ensures Reaches(g, a, c)
  {
    var path :| PathFromTo(g, path, b, c);
    var longer := [a] + path;
    forall i | 0 <= i < |longer| - 1 ensures longer[i + 1] in Successors(g, longer[i]) {
      if i > 0 { assert path[i - 1 + 1] in Successors(g, path[i - 1]); }
    }
    assert PathFromTo(g, longer, a, c);
  }

  lemma {:induction false} PathThenReaches(g: Graph, path: seq<string>, a: string, b: string, c: string)
    requires PathFromTo(g, path, a, b) && Reaches(g, b, c)
    ensures Reaches(g, a, c)
    decreases |path|
  {
    if |path| > 1 {
      assert path[1] in Successors(g, path[0]);
      assert PathFromTo(g, path[1..], path[1], b);
      PathThenReaches(g, path[1..], path[1], b, c);
      EdgeThenReaches(g, a, path[1], c);
    }
  }

  /** A set closed under edges holds everything reachable from its members. */
  lemma {:induction false} ClosedHoldsPaths(g: Graph, path: seq<string>, closed: set<string>)
    requires IsPath(g, path) && path[0] in closed
    requires forall x, y | x in closed && y in Successors(g, x) :: y in closed
    ensures path[|path| - 1] in closed
    decreases |path|
  {
    if |path| > 1 {
      assert path[1] in Successors(g, path[0]);
      assert IsPath(g, path[1..]);
      ClosedHoldsPaths(g, path[1..], closed);
    }
  }

  // ---------------------------------------------------------------- replacing a node's edges

  /** New edges out of a node do not help to reach it. */
  lemma {:induction false} OnlyOldEdgesReach(g: Graph, name: string, edges: seq<string>, path: seq<string>)
    requires IsPath(g[name := edges], path) && path[|path| - 1] == name
    ensures Reaches(g, path[0], name)
    decreases |path|
  {
    if path[0] == name {
      ReachesSelf(g, name);
    } else {
      assert path[1] in Successors(g[name := edges], path[0]);
      assert IsPath(g[name := edges], path[1..]);
      OnlyOldEdgesReach(g, name, edges, path[1..]);
      EdgeThenReaches(g, path[0], path[1], name);
    }
  }

  lemma OldEdgesReach(g: Graph, name: string, edges: seq<string>, x: string)
    requires Reaches(g[name := edges], x, name)
    ensures Reaches(g, x, name)
  {
    var path :| PathFromTo(g[name := edges], path, x, name);
    OnlyOldEdgesReach(g, name, edges, path);
  }

  /** A path of the new graph that avoids the node is a path of the old one. */
  lemma AvoidingPathIsOld(g: Graph, name: string, edges: seq<string>, path: seq<string>)
    requires IsPath(g[name := edges], path) && name !in path
    ensures IsPath(g, path)
  {
    forall i | 0 <= i < |path| - 1 ensures path[i + 1] in Successors(g, path[i]) {
      assert path[i] != name && path[i + 1] in Successors(g[name := edges], path[i]);
    }
  }

  /** A cycle of the new graph through the node would reach it from one of its new edges. */
  lemma CycleThroughNode(g: Graph, name: string, edges: seq<string>, x: string, y: string, path: seq<string>)
    requires y in Successors(g[name := edges], x) && x != name
    requires PathFromTo(g[name := edges], path, y, x) && name in path
    ensures exists s :: s in edges && Reaches(g, s, name)
  {
    var h := g[name := edges];
    var k :| 0 <= k < |path| && path[k] == name;
    var s := path[k + 1];
    assert s in Successors(h, name);
    var before, after := path[..k + 1], path[k + 1..];
    assert PathFromTo(h, before, y, name);
    EdgeThenReaches(h, x, y, name);
    forall i | 0 <= i < |after| - 1 ensures after[i + 1] in Successors(h, after[i]) {
      assert path[k + 1 + i + 1] in Successors(h, path[k + 1 + i]);
    }
    PathThenReaches(h, after, s, x, name);
    OldEdgesReach(g, name, edges, s);
  }

  /** Replacing all edges of a node by edges that cannot reach it, judged in the old graph, makes no cycle. */
  lemma ReplaceKeepsAcyclic(g: Graph, name: string, edges: seq<string>)
    requires Acyclic(g)
    requires forall s | s in edges :: !Reaches(g, s, name)
    ensures Acyclic(g[name := edges])
  {
    var h := g[name := edges];
    forall x, y | y in Successors(h, x) ensures !Reaches(h, y, x) {
      assert x != name ==> y in Successors(g, x);
      if Reaches(h, y, x) {
        if x == name {
          OldEdgesReach(g, name, edges, y);
        } else {
          var path :| PathFromTo(h, path, y, x);
          if name in path {
            CycleThroughNode(g, name, edges, x, y, path);
          } else {
            AvoidingPathIsOld(g, name, edges, path);
            assert PathFromTo(g, path, y, x);
          }
        }
      }
    }
  }

  // ---------------------------------------------------------------- registration

  datatype Input = Raw(source: string, dataset: string) | Item(name: string)

  datatype Error = DependencyCycle | UnknownItem | UnknownRaw

  /** The items an input list declares, each once. */
  function ItemNames(inputs: seq<Input>): (r: seq<string>)
    ensures forall x :: x in r <==> Item(x) in inputs
  {
    if inputs == [] then [] else
      var init, last := inputs[..|inputs| - 1], inputs[|inputs| - 1];
      assert forall i :: i in inputs <==> i in init || i == last;
      var rest := ItemNames(init);
      if last.Item? && last.name !in rest then rest + [last.name] else rest
  }

  class Registry {
    var active: set<string>
    var datasets: set<(string, string)>
    var dependencies: Graph

    constructor (raw: set<(string, string)>)
      ensures active == {} && datasets == raw && dependencies == map[] && Acyclic(dependencies)
    {
      active, datasets, dependencies := {}, raw, map[];
    }

    /** Depth-first search with one shared set of visited items. */
    method Search(first: string, target: string, visited: set<string>) returns (found: bool, seen: set<string>)
      requires target !in visited
      decreases Nodes(dependencies) - visited, first !in Nodes(dependencies)
      ensures found ==> Reaches(dependencies, first, target)
      ensures !found ==> visited <= seen && first in seen && target !in seen
      ensures !found ==> forall x, y | x in seen - visited && y in Successors(dependencies, x) :: y in seen
    {
      if first == target {
        ReachesSelf(dependencies, first);
        return true, visited;
      }
      if first in visited {
        return false, visited;
      }
      seen := visited + {first};
      var next := Successors(dependencies, first);
      for i := 0 to |next|
        invariant visited <= seen && first in seen && target !in seen
        invariant forall j | 0 <= j < i :: next[j] in seen
        invariant forall x, y | x in seen - visited && x != first && y in Successors(dependencies, x) :: y in seen
      {
        assert first in dependencies && next[i] in dependencies[first];
        assert Nodes(dependencies) - visited > Nodes(dependencies) - seen by {
          assert first in Nodes(dependencies) - visited;
        }
        ghost var before := seen;
        var deeper;
        found, deeper := Search(next[i], target, seen);
        if found {
          EdgeThenReaches(dependencies, first, next[i], target);
          return true, deeper;
        }
        seen := deeper;
        forall x, y | x in seen - visited && x != first && y in Successors(dependencies, x) ensures y in seen {
          if x !in before { assert x in deeper - before; }
        }
      }
      return false, seen;
    }

    /** Whether one item already depends, through any chain, on another. */
    method CheckReaches(first: string, target: string) returns (found: bool)
      ensures found <==> Reaches(dependencies, first, target)
    {
      var seen;
      found, seen := Search(first, target, {});
      if !found && Reaches(dependencies, first, target) {
        ghost var path :| PathFromTo(dependencies, path, first, target);
        assert seen - {} == seen;
        ClosedHoldsPaths(dependencies, path, seen);
      }
    }

    /** Checks every input against the graph as it is; only then replaces the item's edges. */
    method Register(name: string, inputs: seq<Input>) returns (r: Option<Error>)
      requires Acyclic(dependencies)
      modifies this
      ensures Acyclic(dependencies) && datasets == old(datasets)
      ensures r.Some? ==> active == old(active) && dependencies == old(dependencies)
      ensures r.None? ==> active == old(active) + {name} && dependencies == old(dependencies)[name := ItemNames(inputs)]
      ensures r.None? <==>
        && (forall x | Item(x) in inputs :: x in old(active) && !Reaches(old(dependencies), x, name))
        && (forall s, d | Raw(s, d) in inputs :: (s, d) in datasets)
      ensures r == Some(DependencyCycle) ==> exists x :: Item(x) in inputs && Reaches(dependencies, x, name)
      ensures r == Some(UnknownItem) ==> exists x :: Item(x) in inputs && x !in active
      ensures r == Some(UnknownRaw) ==> exists s, d :: Raw(s, d) in inputs && (s, d) !in datasets
    {
      for i := 0 to |inputs|
        invariant unchanged(this)
        invariant forall x | Item(x) in inputs[..i] :: x in active && !Reaches(dependencies, x, name)
        invariant forall s, d | Raw(s, d) in inputs[..i] :: (s, d) in datasets
      {
        var input := inputs[i];
        assert input in inputs;
        assert inputs[..i + 1] == inputs[..i] + [input];
        match input
        case Item(dependency) =>
          ReachesSelf(dependencies, dependency);
          var cyclic := dependency == name;
          if !cyclic {
            cyclic := CheckReaches(dependency, name);
          }
          if cyclic {
            return Some(DependencyCycle);
          }
          if dependency !in active {
            return Some(UnknownItem);
          }
        case Raw(source, dataset) =>
          if (source, dataset) !in datasets {
            return Some(UnknownRaw);
          }
      }
      assert inputs[..|inputs|] == inputs;
      ReplaceKeepsAcyclic(dependencies, name, ItemNames(inputs));
      active := active + {name};
      dependencies := dependencies[name := ItemNames(inputs)];
      return None;
    }
  }
}
