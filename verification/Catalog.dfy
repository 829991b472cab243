/** Category trees over shared tables (management/catalog.py). */
module Catalog {
  import opened Wrappers

  datatype Kind = Raw | Item

  /** A tree is named by its kind and source; categories of all trees share one table. */
  datatype Tree = Tree(kind: Kind, source: string)

  datatype Id = Id(hex: string)

  datatype Node = Node(tree: Tree, name: string, parent: Option<Id>)

  datatype Object = Object(tree: Tree, key: string)

  /** The empty id excludes nothing. */
  const NO_ID := Id("")

  datatype Error = BadName | UnknownCategory | UnknownParent | Cycle | DuplicateSibling | NotEmpty | UnknownObject
    | IdTaken

  type Nodes = map<Id, Node>
  type Ranks = map<Id, nat>

  // ---------------------------------------------------------------- names

  /** The characters Python counts as white space. */
  predicate Space(c: char) {
    var u := c as int;
    || 0x09 <= u <= 0x0D || 0x1C <= u <= 0x20 || u == 0x85 || u == 0xA0 || u == 0x1680
    || 0x2000 <= u <= 0x200A || u == 0x2028 || u == 0x2029 || u == 0x202F || u == 0x205F || u == 0x3000
  }

  /** The same characters one by one: control characters, then the spaces of the general punctuation. */
  const WHITE_SPACE: set<int> := {
    9, 10, 11, 12, 13, 28, 29, 30, 31, 32, 133, 160, 5760, 8192, 8193, 8194, 8195, 8196, 8197, 8198, 8199, 8200, 8201,
    8202, 8232, 8233, 8239, 8287, 12288
  }

  lemma SpaceTable(c: char)
    ensures Space(c) <==> c as int in WHITE_SPACE
  {}

  function StripLeft(s: string): (r: string)
    ensures |r| <= |s| && s[|s| - |r|..] == r
  {
    if s != [] && Space(s[0]) then StripLeft(s[1..]) else s
  }

  function StripRight(s: string): (r: string)
    ensures |r| <= |s| && s[..|r|] == r
  {
    if s != [] && Space(s[|s| - 1]) then StripRight(s[..|s| - 1]) else s
  }

  function Strip(s: string): string { StripRight(StripLeft(s)) }

  /** A name is not empty and neither begins nor ends with white space. */
  ghost predicate GoodName(name: string) {
    name != "" && name[0] as int !in WHITE_SPACE && name[|name| - 1] as int !in WHITE_SPACE
  }

  /** The source's test, by stripping, accepts exactly the good names. */
  method CheckName(name: string) returns (ok: bool)
    ensures ok <==> GoodName(name)
  {
    ok := Strip(name) != "" && name == Strip(name);
    if name != [] {
      SpaceTable(name[0]);
      SpaceTable(name[|name| - 1]);
    }
    if name != [] && Space(name[0]) {
      assert |Strip(name)| <= |StripLeft(name)| < |name|;
    }
  }

  // ---------------------------------------------------------------- the forest

  /** Ranks grow from parent to child, so no chain of parents can close. */
  ghost predicate Ranked(nodes: Nodes, rank: Ranks) {
    forall id | id in nodes ::
      && id in rank
      && (nodes[id].parent.Some? ==> nodes[id].parent.value in rank && rank[nodes[id].parent.value] < rank[id])
  }

  ghost predicate ParentsInTree(nodes: Nodes) {
    forall id | id in nodes && nodes[id].parent.Some? ::
      nodes[id].parent.value in nodes && nodes[nodes[id].parent.value].tree == nodes[id].tree
  }

  ghost predicate SiblingsDiffer(nodes: Nodes) {
    forall a, b | a in nodes && b in nodes && nodes[a] == nodes[b] :: a == b
  }

  ghost predicate NamesGood(nodes: Nodes) {
    NO_ID !in nodes && forall id | id in nodes :: GoodName(nodes[id].name)
  }

  ghost predicate AssignedInTree(nodes: Nodes, assignments: map<Object, Id>) {
    forall o | o in assignments :: assignments[o] in nodes && nodes[assignments[o]].tree == o.tree
  }

  /** Id x is c or one of its descendants. */
  ghost predicate Under(nodes: Nodes, rank: Ranks, c: Id, x: Id)
    requires Ranked(nodes, rank) && ParentsInTree(nodes) && x in nodes
    decreases rank[x]
  {
    x == c || (nodes[x].parent.Some? && Under(nodes, rank, c, nodes[x].parent.value))
  }

  /** Each id of the chain is the parent of the one before it. */
  ghost predicate Chain(nodes: Nodes, ids: seq<Id>) {
    && (forall i | 0 <= i < |ids| :: ids[i] in nodes)
    && (forall i, j | 0 <= i && j == i + 1 && j < |ids| :: nodes[ids[i]].parent == Some(ids[j]))
  }

  /** Every chain of parents in a forest is free of repetition, hence finite. */
  lemma {:induction false} ChainsDescend(nodes: Nodes, rank: Ranks, ids: seq<Id>, i: nat, j: nat)
    requires Ranked(nodes, rank) && Chain(nodes, ids) && i < j < |ids|
    ensures rank[ids[j]] < rank[ids[i]] && ids[i] != ids[j]
  {
    if i + 1 < j {
      ChainsDescend(nodes, rank, ids, i, j - 1);
      assert nodes[ids[j - 1]].parent == Some(ids[j]);
    } else {
      assert nodes[ids[i]].parent == Some(ids[j]);
    }
  }

  /** A chain of parents leads from x to c. */
  ghost predicate Descends(nodes: Nodes, x: Id, c: Id) {
    exists ids :: Chain(nodes, ids) && ids != [] && ids[0] == x && ids[|ids| - 1] == c
  }

  /** Being under a category is having a chain of parents that leads to it. */
  lemma {:induction false} UnderIsChain(nodes: Nodes, rank: Ranks, c: Id, x: Id)
    requires Ranked(nodes, rank) && ParentsInTree(nodes) && x in nodes
    ensures Under(nodes, rank, c, x) <==> Descends(nodes, x, c)
    decreases rank[x]
  {
    if x == c {
      assert Chain(nodes, [x]);
    }
    if nodes[x].parent.Some? {
      var p := nodes[x].parent.value;
      UnderIsChain(nodes, rank, c, p);
      if Under(nodes, rank, c, p) {
        var ids :| Chain(nodes, ids) && ids != [] && ids[0] == p && ids[|ids| - 1] == c;
        var longer := [x] + ids;
        assert Chain(nodes, longer) && longer[0] == x && longer[|longer| - 1] == c;
      }
    }
    if ids :| Chain(nodes, ids) && ids != [] && ids[0] == x && ids[|ids| - 1] == c {
      if |ids| > 1 {
        assert nodes[ids[0]].parent == Some(ids[1]);
        assert Chain(nodes, ids[1..]);
      }
    }
  }

  /** The ranks after moving c under a parent: everything under c is lifted above the parent. */
  ghost function Lifted(nodes: Nodes, rank: Ranks, c: Id, lift: nat): Ranks
    requires Ranked(nodes, rank) && ParentsInTree(nodes)
  {
    map x | x in nodes :: if Under(nodes, rank, c, x) then rank[x] + lift else rank[x]
  }

  lemma MoveKeepsRanked(nodes: Nodes, rank: Ranks, c: Id, node: Node)
    requires Ranked(nodes, rank) && ParentsInTree(nodes) && c in nodes
    requires node.parent.Some? ==> node.parent.value in nodes && !Under(nodes, rank, c, node.parent.value)
    ensures Ranked(nodes[c := node], Lifted(nodes, rank, c, RankBelow(rank, node.parent)))
  {
    var lift := RankBelow(rank, node.parent);
    var after, lifted := nodes[c := node], Lifted(nodes, rank, c, lift);
    forall id | id in after
      ensures id in lifted
      ensures after[id].parent.Some? ==> after[id].parent.value in lifted && lifted[after[id].parent.value] < lifted[id]
    {
      if id != c && nodes[id].parent.Some? {
        assert Under(nodes, rank, c, id) <==> Under(nodes, rank, c, nodes[id].parent.value);
      }
    }
  }

  ghost predicate Sound(nodes: Nodes, rank: Ranks, assignments: map<Object, Id>) {
    && Ranked(nodes, rank) && ParentsInTree(nodes) && SiblingsDiffer(nodes) && NamesGood(nodes)
    && AssignedInTree(nodes, assignments)
  }

  function RankBelow(rank: Ranks, parent: Option<Id>): nat
    requires parent.Some? ==> parent.value in rank
  {
    if parent.Some? then rank[parent.value] + 1 else 0
  }

  lemma CreateKeeps(nodes: Nodes, rank: Ranks, assignments: map<Object, Id>, id: Id, node: Node)
    requires Sound(nodes, rank, assignments) && id !in nodes && id != NO_ID && GoodName(node.name)
    requires node.parent.Some? ==> InTree(nodes, node.tree, node.parent.value)
    requires !SiblingExists(nodes, node, NO_ID)
    ensures Sound(nodes[id := node], rank[id := RankBelow(rank, node.parent)], assignments)
  {
    CreateKeepsForest(nodes, rank, id, node);
    SiblingsStayDifferent(nodes, id, node, NO_ID);
  }

  lemma CreateKeepsForest(nodes: Nodes, rank: Ranks, id: Id, node: Node)
    requires Ranked(nodes, rank) && ParentsInTree(nodes) && id !in nodes
    requires node.parent.Some? ==> InTree(nodes, node.tree, node.parent.value)
    ensures Ranked(nodes[id := node], rank[id := RankBelow(rank, node.parent)]) && ParentsInTree(nodes[id := node])
  {}

  lemma SiblingsStayDifferent(nodes: Nodes, id: Id, node: Node, excluded: Id)
    requires SiblingsDiffer(nodes) && NO_ID !in nodes && !SiblingExists(nodes, node, excluded)
    requires excluded == NO_ID || excluded == id
    ensures SiblingsDiffer(nodes[id := node])
  {}

  lemma UpdateKeeps(nodes: Nodes, rank: Ranks, assignments: map<Object, Id>, id: Id, node: Node)
    requires Sound(nodes, rank, assignments) && InTree(nodes, node.tree, id) && GoodName(node.name)
    requires node.parent.Some? ==>
      InTree(nodes, node.tree, node.parent.value) && !Under(nodes, rank, id, node.parent.value)
    requires !SiblingExists(nodes, node, id)
    ensures Sound(nodes[id := node], Lifted(nodes, rank, id, RankBelow(rank, node.parent)), assignments)
  {
    MoveKeepsRanked(nodes, rank, id, node);
    SiblingsStayDifferent(nodes, id, node, id);
    UpdateKeepsTrees(nodes, assignments, id, node);
    hide Ranked, SiblingsDiffer, SiblingExists, Under, Lifted, ParentsInTree, AssignedInTree, GoodName;
  }

  lemma UpdateKeepsTrees(nodes: Nodes, assignments: map<Object, Id>, id: Id, node: Node)
    requires ParentsInTree(nodes) && AssignedInTree(nodes, assignments) && InTree(nodes, node.tree, id)
    requires node.parent.Some? ==> InTree(nodes, node.tree, node.parent.value)
    ensures ParentsInTree(nodes[id := node]) && AssignedInTree(nodes[id := node], assignments)
  {}

  lemma RemoveKeeps(nodes: Nodes, rank: Ranks, assignments: map<Object, Id>, id: Id)
    requires Sound(nodes, rank, assignments)
    requires forall x | x in nodes :: nodes[x].parent != Some(id)
    requires forall o | o in assignments :: assignments[o] != id
    ensures Sound(nodes - {id}, rank, assignments)
  {
    RemoveKeepsParents(nodes, id);
    RemoveKeepsSiblings(nodes, id);
    hide ParentsInTree, SiblingsDiffer, GoodName;
  }

  lemma RemoveKeepsParents(nodes: Nodes, id: Id)
    requires ParentsInTree(nodes) && forall x | x in nodes :: nodes[x].parent != Some(id)
    ensures ParentsInTree(nodes - {id})
  {}

  lemma RemoveKeepsSiblings(nodes: Nodes, id: Id)
    requires SiblingsDiffer(nodes)
    ensures SiblingsDiffer(nodes - {id})
  {}

  // ---------------------------------------------------------------- the tables and their trees

  class Tables {
    var nodes: Nodes
    var assignments: map<Object, Id>
    var active: set<Object>
    ghost var rank: Ranks

    ghost predicate Valid()
      reads this
    {
      Sound(nodes, rank, assignments)
    }

    constructor (active: set<Object>)
      ensures Valid() && nodes == map[] && assignments == map[] && this.active == active
    {
      nodes, assignments, rank, this.active := map[], map[], map[], active;
    }
  }

  predicate InTree(nodes: Nodes, tree: Tree, id: Id) { id in nodes && nodes[id].tree == tree }

  /** Another category of the tree already has this name under this parent. */
  predicate SiblingExists(nodes: Nodes, node: Node, excluded: Id) {
    exists id :: id in nodes && nodes[id] == node && id != excluded
  }

  /** A parent that is the category itself or lies under it. */
  ghost predicate Closes(nodes: Nodes, rank: Ranks, id: Id, parent: Id)
    requires Ranked(nodes, rank) && ParentsInTree(nodes)
  {
    parent == id || (parent in nodes && Under(nodes, rank, id, parent))
  }

  lemma ClosesIsChain(nodes: Nodes, rank: Ranks, id: Id, parent: Id)
    requires Ranked(nodes, rank) && ParentsInTree(nodes) && id in nodes
    ensures Closes(nodes, rank, id, parent) <==> Descends(nodes, parent, id)
  {
    if parent in nodes {
      UnderIsChain(nodes, rank, id, parent);
    } else if ids :| Chain(nodes, ids) && ids != [] && ids[0] == parent && ids[|ids| - 1] == id {
      assert false;
    }
  }

  /** Only a category of its own tree descends from a category. */
  lemma {:induction false} UnderInTree(nodes: Nodes, rank: Ranks, c: Id, x: Id)
    requires Ranked(nodes, rank) && ParentsInTree(nodes) && x in nodes && Under(nodes, rank, c, x)
    ensures c in nodes && nodes[c].tree == nodes[x].tree
    decreases rank[x]
  {
    if x != c { UnderInTree(nodes, rank, c, nodes[x].parent.value); }
  }

  lemma DescendsInTree(nodes: Nodes, rank: Ranks, id: Id, start: Id)
    requires Ranked(nodes, rank) && ParentsInTree(nodes) && id in nodes
    ensures Descends(nodes, start, id) <==>
      start == id || (InTree(nodes, nodes[id].tree, start) && Under(nodes, rank, id, start))
  {
    ClosesIsChain(nodes, rank, id, start);
    if start in nodes && Under(nodes, rank, id, start) { UnderInTree(nodes, rank, id, start); }
    hide Descends, Under;
  }

  /** No other category of the same tree has this name and this parent. */
  ghost predicate NameFree(nodes: Nodes, node: Node) {
    forall id | id in nodes ::
      nodes[id].tree != node.tree || nodes[id].name != node.name || nodes[id].parent != node.parent
  }

  lemma NameFreeIs(nodes: Nodes, node: Node, id: Id)
    requires NO_ID !in nodes
    ensures NameFree(nodes - {id}, node) <==> !SiblingExists(nodes, node, id)
    ensures NameFree(nodes, node) <==> !SiblingExists(nodes, node, NO_ID)
  {
    var rest := nodes - {id};
    forall x | x in nodes && nodes[x] == node && x != id ensures x in rest && rest[x] == node {}
  }

  /** The category a caller asks for: a given name or parent replaces the old one, what is not given stays. */
  ghost predicate Requested(before: Node, after: Node, name: Option<string>, parent: Option<Option<Id>>) {
    && after.tree == before.tree
    && name in {None, Some(after.name)} && (name == None ==> after.name == before.name)
    && parent in {None, Some(after.parent)} && (parent == None ==> after.parent == before.parent)
  }

  class CategoryTree {
    const tables: Tables
    const tree: Tree

    constructor (tables: Tables, tree: Tree)
      ensures this.tables == tables && this.tree == tree
    {
      this.tables, this.tree := tables, tree;
    }

    /** A category of this tree. */
    ghost predicate Category(nodes: Nodes, id: Id) {
      exists node :: (id, node) in nodes.Items && node.tree == tree
    }

    method Create(name: string, parent: Option<Id>, id: Id) returns (r: Result<Node, Error>)
      requires tables.Valid() && id != NO_ID
      modifies tables`nodes, tables`rank
      ensures tables.Valid()
      ensures r.Success? <==>
                && GoodName(name) && (parent.Some? ==> Category(old(tables.nodes), parent.value))
                && id !in old(tables.nodes) && NameFree(old(tables.nodes), Node(tree, name, parent))
      ensures r == Failure(BadName) <==> !GoodName(name)
      ensures r == Failure(UnknownCategory) <==>
        GoodName(name) && parent.Some? && !Category(old(tables.nodes), parent.value)
      ensures r == Failure(DuplicateSibling) ==> !NameFree(old(tables.nodes), Node(tree, name, parent))
      ensures r == Failure(IdTaken) ==> id in old(tables.nodes)
      ensures r.Success? ==> r.value == Node(tree, name, parent) && tables.nodes == old(tables.nodes)[id := r.value]
      ensures r.Failure? ==> tables.nodes == old(tables.nodes)
    {
      var good := CheckName(name);
      if !good { return Failure(BadName); }
      if parent.Some? && !InTree(tables.nodes, tree, parent.value) { return Failure(UnknownCategory); }
      var node := Node(tree, name, parent);
      if SiblingExists(tables.nodes, node, NO_ID) { return Failure(DuplicateSibling); }
      if id in tables.nodes { return Failure(IdTaken); }
      CreateKeeps(tables.nodes, tables.rank, tables.assignments, id, node);
      tables.rank := tables.rank[id := RankBelow(tables.rank, parent)];
      tables.nodes := tables.nodes[id := node];
      return Success(node);
    }

    /** Walks from a parent to its root; an id met on the way would close a cycle. */
    method CheckParents(id: Id, start: Option<Id>) returns (error: Option<Error>)
      requires tables.Valid() && InTree(tables.nodes, tree, id)
      ensures error == Some(Cycle) <==> start.Some? && Descends(tables.nodes, start.value, id)
      ensures error == Some(UnknownParent) <==> start.Some? && !Category(tables.nodes, start.value)
      ensures error.None? || error == Some(Cycle) || error == Some(UnknownParent)
    {
      if start.Some? { DescendsInTree(tables.nodes, tables.rank, id, start.value); }
      var parent := start;
      ghost var moved := false;
      while parent.Some?
        invariant !moved ==> parent == start
        invariant moved ==> start.Some? && start.value != id && InTree(tables.nodes, tree, start.value)
        invariant moved && parent.Some? ==> InTree(tables.nodes, tree, parent.value)
        invariant moved ==>
                    (Under(tables.nodes, tables.rank, id, start.value) <==>
                     parent.Some? && Under(tables.nodes, tables.rank, id, parent.value))
        decreases if parent.None? then 0 else if parent.value in tables.nodes then 1 + tables.rank[parent.value] else 1
      {
        if parent.value == id { return Some(Cycle); }
        if !InTree(tables.nodes, tree, parent.value) { return Some(UnknownParent); }
        parent, moved := tables.nodes[parent.value].parent, true;
      }
      return None;
    }

    /** The move or rename a caller asks for; what is not given stays. */
    function Target(node: Node, name: Option<string>, parent: Option<Option<Id>>): Node {
      Node(tree, if name.Some? then name.value else node.name, if parent.Some? then parent.value else node.parent)
    }

    lemma TargetIsRequested(before: Node, name: Option<string>, parent: Option<Option<Id>>)
      requires before.tree == tree
      ensures forall node :: Requested(before, node, name, parent) <==> node == Target(before, name, parent)
    {}

    /** Renames and moves a category, exactly when no name, parent, cycle or sibling rule forbids it. */
    method Update(id: Id, name: Option<string>, parent: Option<Option<Id>>) returns (r: Result<Node, Error>)
      requires tables.Valid()
      modifies tables`nodes, tables`rank
      ensures tables.Valid()
      ensures r == Failure(UnknownCategory) <==> !Category(old(tables.nodes), id)
      ensures Category(old(tables.nodes), id) ==>
        forall node: Node | Requested(old(tables.nodes)[id], node, name, parent) ::
          Answered(old(tables.nodes), id, node, r)
      ensures r.Success? ==> Requested(old(tables.nodes)[id], r.value, name, parent)
      ensures r.Success? ==> tables.nodes == old(tables.nodes)[id := r.value]
      ensures r.Failure? ==> tables.nodes == old(tables.nodes)
    {
      assert Category(tables.nodes, id) <==> InTree(tables.nodes, tree, id);
      if !InTree(tables.nodes, tree, id) { return Failure(UnknownCategory); }
      var node := Target(tables.nodes[id], name, parent);
      TargetIsRequested(tables.nodes[id], name, parent);
      AnsweredByChecks(tables.nodes, tables.rank, id, node);
      hide Requested, Target, Answered, Descends, GoodName, NameFree, Category, SiblingExists;
      var good := CheckName(node.name);
      if !good { return Failure(BadName); }
      var error := CheckParents(id, node.parent);
      if error.Some? { return Failure(error.value); }
      if SiblingExists(tables.nodes, node, id) { return Failure(DuplicateSibling); }
      UpdateKeeps(tables.nodes, tables.rank, tables.assignments, id, node);
      tables.rank := Lifted(tables.nodes, tables.rank, id, RankBelow(tables.rank, node.parent));
      tables.nodes := tables.nodes[id := node];
      return Success(node);
    }

    /** How an update that asks for a node is answered: a bad name, an unknown parent, a parent that descends from the
        category and a name taken by a sibling are refused in this order. */
    ghost predicate Answered(nodes: Nodes, id: Id, node: Node, r: Result<Node, Error>) {
      match r
      case Success(done) => done == node && Placed(nodes, id, node) && NameFree(nodes - {id}, node)
      case Failure(BadName) => !GoodName(node.name)
      case Failure(Cycle) => GoodName(node.name) && node.parent.Some? && Descends(nodes, node.parent.value, id)
      case Failure(UnknownParent) =>
        && GoodName(node.name) && node.parent.Some? && !Category(nodes, node.parent.value)
        && node.parent != Some(id)
      case Failure(DuplicateSibling) => Placed(nodes, id, node) && !NameFree(nodes - {id}, node)
      case _ => false
    }

    /** A good name and no parent, or a parent of the tree that does not descend from the category. */
    ghost predicate Placed(nodes: Nodes, id: Id, node: Node) {
      && GoodName(node.name)
      && (node.parent.Some? ==> Category(nodes, node.parent.value) && !Descends(nodes, node.parent.value, id))
    }

    /** The checks of an update, in their order, give that answer. */
    lemma AnsweredByChecks(nodes: Nodes, rank: Ranks, id: Id, node: Node)
      requires Ranked(nodes, rank) && ParentsInTree(nodes) && NO_ID !in nodes && InTree(nodes, tree, id)
      ensures !GoodName(node.name) ==> Answered(nodes, id, node, Failure(BadName))
      ensures GoodName(node.name) && node.parent.Some? ==>
        && (Descends(nodes, node.parent.value, id) ==> Answered(nodes, id, node, Failure(Cycle)))
        && (!Category(nodes, node.parent.value) ==> Answered(nodes, id, node, Failure(UnknownParent)))
      ensures GoodName(node.name) && (node.parent.Some? ==>
          Category(nodes, node.parent.value) && !Descends(nodes, node.parent.value, id)) ==>
        && (SiblingExists(nodes, node, id) ==> Answered(nodes, id, node, Failure(DuplicateSibling)))
        && (!SiblingExists(nodes, node, id) ==> Answered(nodes, id, node, Success(node)))
        && (node.parent.Some? ==>
              InTree(nodes, tree, node.parent.value) && !Under(nodes, rank, id, node.parent.value))
    {
      NameFreeIs(nodes, node, id);
      assert forall x :: Category(nodes, x) <==> InTree(nodes, tree, x);
      if node.parent.Some? { DescendsInTree(nodes, rank, id, node.parent.value); }
      hide Ranked, ParentsInTree, Descends, NameFree, SiblingExists, GoodName, Under;
    }

    /** Removes a category that has neither children nor members. */
    method Remove(id: Id) returns (r: Result<(), Error>)
      requires tables.Valid()
      modifies tables`nodes
      ensures tables.Valid()
      ensures r.Success? ==> id !in tables.assignments.Values && Category(old(tables.nodes), id)
      ensures r.Success? ==> forall x, node | (x, node) in old(tables.nodes).Items :: node.parent != Some(id)
      ensures r == Failure(NotEmpty) ==> Category(old(tables.nodes), id)
      ensures r == Failure(NotEmpty) ==>
        || id in tables.assignments.Values
        || exists x, node :: (x, node) in old(tables.nodes).Items && node.parent == Some(id)
      ensures r == Failure(UnknownCategory) ==> !Category(old(tables.nodes), id)
      ensures r.Failure? ==> r.error in {UnknownCategory, NotEmpty}
      ensures tables.nodes == if r.Success? then old(tables.nodes) - {id} else old(tables.nodes)
    {
      if !InTree(tables.nodes, tree, id) { return Failure(UnknownCategory); }
      if !Empty(tables.nodes, tables.assignments, id) {
        if x :| x in tables.nodes && tables.nodes[x].parent == Some(id) {
          assert (x, tables.nodes[x]) in tables.nodes.Items;
        }
        return Failure(NotEmpty);
      }
      RemoveKeeps(tables.nodes, tables.rank, tables.assignments, id);
      tables.nodes := tables.nodes - {id};
      return Success(());
    }

    /** Assigns an object of the tree to one category of the tree, or to none. */
    method Assign(key: string, category: Option<Id>) returns (r: Result<(), Error>)
      requires tables.Valid()
      modifies tables`assignments
      ensures tables.Valid()
      ensures r.Success? <==>
                (category.Some? ==> Category(tables.nodes, category.value)) && Object(tree, key) in tables.active
      ensures r == Failure(UnknownCategory) <==> category.Some? && !Category(tables.nodes, category.value)
      ensures r.Failure? ==> r.error in {UnknownCategory, UnknownObject}
      ensures r.Failure? ==> tables.assignments == old(tables.assignments)
      ensures r.Success? && category.Some? ==>
                tables.assignments == old(tables.assignments)[Object(tree, key) := category.value]
      ensures r.Success? && category.None? ==> tables.assignments == old(tables.assignments) - {Object(tree, key)}
    {
      if category.Some? && !InTree(tables.nodes, tree, category.value) { return Failure(UnknownCategory); }
      var o := Object(tree, key);
      if o !in tables.active { return Failure(UnknownObject); }
      tables.assignments :=
        if category.None? then tables.assignments - {o} else tables.assignments[o := category.value];
      return Success(());
    }
  }

  predicate Empty(nodes: Nodes, assignments: map<Object, Id>, id: Id) {
    (forall x | x in nodes :: nodes[x].parent != Some(id)) && (forall o | o in assignments :: assignments[o] != id)
  }
}
