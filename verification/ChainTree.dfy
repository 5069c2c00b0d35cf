/** The rerun chain of a run as a tree: find the root, then collect everything below it. */
module ChainTree {
  import opened Text
  import opened ParentLinks

  datatype Info = Info(parent: Option<string>, status: string, attempt: Option<int>)

  datatype Node = Node(id: string, info: Info, children: seq<Node>)

  type Index = map<string, Info>

  function LinksIn(index: Index): (links: Links)
    ensures links.Keys == index.Keys && forall id :: id in index ==> links[id] == index[id].parent
  {
    map id | id in index :: index[id].parent
  }

  // ----- what the tree should hold -----

  ghost predicate Reaches(links: Links, root: string, x: string) {
    exists hops: nat :: Climb(links, x, hops) == Some(root)
  }

  /** `x` climbs to `id` in `hops` links without passing `root` on the way. */
  ghost predicate Under(links: Links, root: string, id: string, x: string, hops: nat)
    decreases hops
  {
    if hops == 0 then x == id
    else x != root && x in links && links[x].Some? && Under(links, root, id, links[x].value, hops - 1)
  }

  /** Everything strictly below `id`. */
  ghost function Below(links: Links, root: string, id: string): set<string> {
    set x | x in links && exists hops: nat :: hops > 0 && Under(links, root, id, x, hops)
  }

  ghost function Subtree(links: Links, root: string, id: string): set<string> {
    {id} + Below(links, root, id)
  }

  ghost predicate IsChild(links: Links, root: string, id: string, c: string) {
    c != root && c in links && links[c] == Some(id)
  }

  lemma {:induction false} ReachesIsUnder(links: Links, root: string, x: string, hops: nat) returns (short: nat)
    requires Climb(links, x, hops) == Some(root)
    ensures Under(links, root, root, x, short)
    decreases hops
  {
    if x == root {
      short := 0;
    } else {
      var rest := ReachesIsUnder(links, root, links[x].value, hops - 1);
      short := rest + 1;
    }
  }

  lemma {:induction false} UnderClimbs(links: Links, root: string, id: string, x: string, hops: nat)
    requires Under(links, root, id, x, hops)
    ensures Climb(links, x, hops) == Some(id)
    decreases hops
  {
    if hops > 0 { UnderClimbs(links, root, id, links[x].value, hops - 1); }
  }

  lemma {:induction false} UnderChain(links: Links, root: string, top: string, id: string, x: string, a: nat, b: nat)
    requires Under(links, root, id, x, a) && Under(links, root, top, id, b)
    ensures Under(links, root, top, x, a + b)
    decreases a
  {
    if a > 0 { UnderChain(links, root, top, id, links[x].value, a - 1, b); }
  }

  /** The way to the root has one length. */
  lemma {:induction false} OneDistance(links: Links, root: string, x: string, a: nat, b: nat)
    requires Under(links, root, root, x, a) && Under(links, root, root, x, b)
    ensures a == b
    decreases a
  {
    if a > 0 && b > 0 { OneDistance(links, root, links[x].value, a - 1, b - 1); }
  }

  lemma {:induction false} UnderEndsOnce(links: Links, root: string, p: string, q: string, x: string, hops: nat)
    requires Under(links, root, p, x, hops) && Under(links, root, q, x, hops)
    ensures p == q
    decreases hops
  {
    if hops > 0 { UnderEndsOnce(links, root, p, q, links[x].value, hops - 1); }
  }

  /** Climbing to `id` in more than one hop passes a child of `id`. */
  lemma {:induction false} ThroughChild(links: Links, root: string, id: string, x: string, hops: nat) returns (child: string)
    requires hops > 0 && Under(links, root, id, x, hops)
    ensures IsChild(links, root, id, child) && Under(links, root, child, x, hops - 1)
    decreases hops
  {
    if hops == 1 {
      child := x;
    } else {
      child := ThroughChild(links, root, id, links[x].value, hops - 1);
    }
  }

  /** Two children of one run, each on its way to the root, have nothing below in common, and neither is
      below the other. */
  lemma SiblingsAreApart(links: Links, root: string, id: string, d: nat, a: string, b: string)
    requires Under(links, root, root, id, d) && IsChild(links, root, id, a) && IsChild(links, root, id, b) && a != b
    ensures Subtree(links, root, a) !! Subtree(links, root, b)
  {
    forall x | x in Subtree(links, root, a) ensures x !in Subtree(links, root, b) {
      var i: nat :| Under(links, root, a, x, i) by { assert x == a ==> Under(links, root, a, x, 0); }
      if x in Subtree(links, root, b) {
        var j: nat :| Under(links, root, b, x, j) by { assert x == b ==> Under(links, root, b, x, 0); }
        SameChild(links, root, id, d, a, b, x, i, j);
      }
    }
  }

  lemma SameChild(links: Links, root: string, id: string, d: nat, a: string, b: string, x: string, i: nat, j: nat)
    requires Under(links, root, root, id, d) && IsChild(links, root, id, a) && IsChild(links, root, id, b)
    requires Under(links, root, a, x, i) && Under(links, root, b, x, j)
    ensures a == b
  {
    UnderChain(links, root, root, a, x, i, d + 1);
    UnderChain(links, root, root, b, x, j, d + 1);
    OneDistance(links, root, x, i + (d + 1), j + (d + 1));
    UnderEndsOnce(links, root, a, b, x, i);
  }

  /** No run on its way to the root is below itself. */
  lemma NotBelowItself(links: Links, root: string, id: string, d: nat)
    requires Under(links, root, root, id, d)
    ensures id !in Below(links, root, id)
  {
    if id in Below(links, root, id) {
      var hops: nat :| hops > 0 && Under(links, root, id, id, hops);
      UnderChain(links, root, root, id, id, hops, d);
      OneDistance(links, root, id, d, hops + d);
    }
  }

  /** What lies below a run is its children and what lies below them. */
  lemma BelowByChildren(links: Links, root: string, id: string, x: string)
    ensures x in Below(links, root, id) <==>
      exists c :: IsChild(links, root, id, c) && x in Subtree(links, root, c)
  {
    if x in Below(links, root, id) {
      var hops: nat :| hops > 0 && Under(links, root, id, x, hops);
      var c := ThroughChild(links, root, id, x, hops);
      assert x in Subtree(links, root, c);
    }
    if c :| IsChild(links, root, id, c) && x in Subtree(links, root, c) {
      var hops: nat :| Under(links, root, c, x, hops) by { assert x == c ==> Under(links, root, c, x, 0); }
      UnderChain(links, root, id, c, x, hops, 1);
    }
  }

  // ----- placing the children one by one -----

  /** Everything under those children of `id` that have been gone through. */
  ghost function PlacedBy(links: Links, root: string, id: string, done: seq<string>): set<string> {
    set x | x in links && exists c :: c in done && IsChild(links, root, id, c) && x in Subtree(links, root, c)
  }

  lemma PlacedByAll(links: Links, root: string, id: string, order: seq<string>)
    requires forall x :: x in order <==> x in links
    ensures PlacedBy(links, root, id, order) == Below(links, root, id)
  {
    forall x | x in links ensures x in PlacedBy(links, root, id, order) <==> x in Below(links, root, id) {
      BelowByChildren(links, root, id, x);
    }
  }

  /** The guard refuses exactly the root and what it has already seen among the children of `id`. */
  lemma GuardDecides(links: Links, root: string, id: string, d: nat, guard: set<string>, done: seq<string>, c: string)
    requires Under(links, root, root, id, d) && root in guard && Below(links, root, id) !! guard
    requires c in links && links[c] == Some(id)
    ensures c !in guard + PlacedBy(links, root, id, done) <==> IsChild(links, root, id, c) && c !in done
  {
    if IsChild(links, root, id, c) {
      BelowByChildren(links, root, id, c);
      if c in PlacedBy(links, root, id, done) {
        var b :| b in done && IsChild(links, root, id, b) && c in Subtree(links, root, b);
        if b != c { SiblingsAreApart(links, root, id, d, b, c); }
      }
    }
  }

  lemma PlacedStep(links: Links, root: string, id: string, d: nat, guard: set<string>, done: seq<string>, c: string)
    requires Under(links, root, root, id, d) && Below(links, root, id) !! guard
    requires IsChild(links, root, id, c) && c !in done
    ensures PlacedBy(links, root, id, done + [c]) == PlacedBy(links, root, id, done) + Subtree(links, root, c)
    ensures PlacedBy(links, root, id, done) !! Subtree(links, root, c)
    ensures Below(links, root, c) !! guard + PlacedBy(links, root, id, done) + {c}
    ensures guard + PlacedBy(links, root, id, done) + {c} + Below(links, root, c) == guard + PlacedBy(links, root, id, done + [c])
    ensures Under(links, root, root, c, d + 1)
  {
    NotBelowItself(links, root, c, d + 1);
    forall x | x in Subtree(links, root, c) ensures x !in guard + PlacedBy(links, root, id, done) {
      BelowByChildren(links, root, id, x);
      if b :| b in done && IsChild(links, root, id, b) && x in Subtree(links, root, b) {
        SiblingsAreApart(links, root, id, d, b, c);
      }
    }
  }

  lemma PlacedSame(links: Links, root: string, id: string, done: seq<string>, c: string)
    requires !IsChild(links, root, id, c) || c in done
    ensures PlacedBy(links, root, id, done + [c]) == PlacedBy(links, root, id, done)
  {
  }

  // ----- the tree that is built -----

  function Runs(node: Node): multiset<string>
    decreases node, 0
  {
    multiset{node.id} + RunsIn(node.children)
  }

  function RunsIn(nodes: seq<Node>): multiset<string>
    decreases nodes, |nodes|
  {
    if nodes == [] then multiset{} else RunsIn(nodes[..|nodes| - 1]) + Runs(nodes[|nodes| - 1])
  }

  /** Every node shows its run's own facts, and hangs under the run its parent link names. */
  predicate Shaped(index: Index, node: Node)
    decreases node, 0
  {
    && node.id in index && node.info == index[node.id]
    && AllShaped(index, node.id, node.children)
  }

  predicate AllShaped(index: Index, parent: string, nodes: seq<Node>)
    decreases nodes, 0
  {
    forall i :: 0 <= i < |nodes| ==> nodes[i].info.parent == Some(parent) && Shaped(index, nodes[i])
  }

  /** The tree builder with the set of runs already placed. */
  class Builder {
    const index: Index
    const order: seq<string>
    var guard: set<string>

    /** `order` is the order in which the index lists its runs. */
    constructor (index: Index, order: seq<string>, root: string)
      requires forall id :: id in order <==> id in index
      ensures this.index == index && this.order == order && guard == {root}
    {
      this.index := index;
      this.order := order;
      guard := {root};
    }

    /** Place `id` and everything below it: each such run once, and no other. */
    method Build(id: string, ghost root: string, ghost d: nat) returns (node: Node)
      requires forall x :: x in order <==> x in index
      requires id in index && root in guard && guard <= index.Keys
      requires Under(LinksIn(index), root, root, id, d)
      requires Below(LinksIn(index), root, id) !! guard
      modifies this
      ensures guard == old(guard) + Below(LinksIn(index), root, id) && guard <= index.Keys
      ensures node.id == id && node.info == index[id] && Shaped(index, node)
      ensures Runs(node) == multiset(Subtree(LinksIn(index), root, id))
      decreases index.Keys - guard, 2
    {
      ghost var below := Below(LinksIn(index), root, id);
      var children := PlaceAll(id, root, d);
      NotBelowItself(LinksIn(index), root, id, d);
      RunsWithTop(id, children, index[id], below);
      ShapedNode(index, id, children);
      node := Node(id, index[id], children);
    }

    /** The loop over the index: place every child of `id` that is not placed yet. */
    method PlaceAll(id: string, ghost root: string, ghost d: nat) returns (children: seq<Node>)
      requires forall x :: x in order <==> x in index
      requires id in index && root in guard && guard <= index.Keys
      requires Under(LinksIn(index), root, root, id, d)
      requires Below(LinksIn(index), root, id) !! guard
      modifies this
      ensures guard == old(guard) + Below(LinksIn(index), root, id) && guard <= index.Keys
      ensures RunsIn(children) == multiset(Below(LinksIn(index), root, id))
      ensures AllShaped(index, id, children)
      decreases index.Keys - guard, 1
    {
      ghost var links := LinksIn(index);
      ghost var before := guard;
      children := [];
      for i := 0 to |order|
        invariant guard == before + PlacedBy(links, root, id, order[..i]) && guard <= index.Keys
        invariant RunsIn(children) == multiset(PlacedBy(links, root, id, order[..i]))
        invariant AllShaped(index, id, children)
      {
        assert order[..i + 1] == order[..i] + [order[i]];
        assert order[i] in order;
        children := Place(order[i], id, children, root, d, before, order[..i]);
      }
      assert order[..|order|] == order;
      PlacedByAll(links, root, id, order);
    }

    /** One turn of the loop over the index: place `child` if it hangs under `id` and is not placed yet. */
    method Place(child: string, id: string, children: seq<Node>, ghost root: string, ghost d: nat, ghost before: set<string>, ghost done: seq<string>)
      returns (more: seq<Node>)
      requires forall x :: x in order <==> x in index
      requires child in index && id in index && root in before && before <= guard <= index.Keys
      requires Under(LinksIn(index), root, root, id, d)
      requires Below(LinksIn(index), root, id) !! before
      requires guard == before + PlacedBy(LinksIn(index), root, id, done)
      requires RunsIn(children) == multiset(PlacedBy(LinksIn(index), root, id, done))
      requires AllShaped(index, id, children)
      modifies this
      ensures guard == before + PlacedBy(LinksIn(index), root, id, done + [child]) && guard <= index.Keys
      ensures RunsIn(more) == multiset(PlacedBy(LinksIn(index), root, id, done + [child]))
      ensures AllShaped(index, id, more)
      decreases index.Keys - before, 0
    {
      ghost var links := LinksIn(index);
      if index[child].parent == Some(id) {
        GuardDecides(links, root, id, d, before, done, child);
      }
      if index[child].parent == Some(id) && child !in guard {
        PlacedStep(links, root, id, d, before, done, child);
        guard := guard + {child};
        var node := Build(child, root, d + 1);
        RunsSnoc(children, node, PlacedBy(links, root, id, done), Subtree(links, root, child));
        ShapedSnoc(index, id, children, node);
        more := children + [node];
      } else {
        PlacedSame(links, root, id, done, child);
        more := children;
      }
    }
  }

  lemma ShapedNode(index: Index, id: string, children: seq<Node>)
    requires id in index && AllShaped(index, id, children)
    ensures Shaped(index, Node(id, index[id], children))
  {
  }

  lemma ShapedSnoc(index: Index, parent: string, nodes: seq<Node>, node: Node)
    requires AllShaped(index, parent, nodes) && Shaped(index, node) && node.info.parent == Some(parent)
    ensures AllShaped(index, parent, nodes + [node])
  {
    var all := nodes + [node];
    forall i | 0 <= i < |all| ensures all[i].info.parent == Some(parent) && Shaped(index, all[i]) {
      if i < |nodes| { assert all[i] == nodes[i]; }
    }
  }

  lemma RunsSnoc(nodes: seq<Node>, node: Node, a: set<string>, b: set<string>)
    requires RunsIn(nodes) == multiset(a) && Runs(node) == multiset(b) && a !! b
    ensures RunsIn(nodes + [node]) == multiset(a + b)
  {
    assert (nodes + [node])[..|nodes|] == nodes;
  }

  lemma RunsWithTop(top: string, children: seq<Node>, info: Info, below: set<string>)
    requires RunsIn(children) == multiset(below) && top !in below
    ensures Runs(Node(top, info, children)) == multiset({top} + below)
  {
  }

  // ----- the whole query -----

  /** Climb while the parent is named, known and new. */
  method FindRoot(index: Index, runId: string) returns (root: string)
    requires runId in index
    ensures root in index && Reaches(LinksIn(index), root, runId)
    ensures !GoesOnForever(LinksIn(index), runId) && "" !in index ==>
      index[root].parent.None? || index[root].parent.value !in index
  {
    ghost var links := LinksIn(index);
    root := runId;
    ghost var hops: nat := 0;
    var seen := {root};
    while index[root].parent.Some? && index[root].parent.value != "" && index[root].parent.value in index
      && index[root].parent.value !in seen
      invariant root in index && Climb(links, runId, hops) == Some(root)
      invariant seen <= index.Keys && forall p :: p in seen ==> exists i: nat :: i <= hops && Climb(links, runId, i) == Some(p)
      decreases index.Keys - seen
    {
      ClimbAdd(links, runId, hops, 1);
      root := index[root].parent.value;
      hops := hops + 1;
      seen := seen + {root};
    }
    ClimbAdd(links, runId, hops, 1);
    if index[root].parent.Some? && index[root].parent.value in seen {
      ghost var i: nat :| i <= hops && Climb(links, runId, i) == Some(index[root].parent.value);
      forall h: nat ensures Climb(links, runId, h).Some? { ReturnIsForever(links, runId, i, hops + 1, h); }
    }
  }

  /** For every finite set of parent links, cyclic or not: the tree holds exactly the known runs whose
      links reach the chosen root, each once, the requested run among them. */
  method BuildRerunChain(index: Index, order: seq<string>, runId: string) returns (tree: Option<Node>)
    requires forall id :: id in order <==> id in index
    ensures tree.Some? <==> ValidRunId(runId) && runId in index
    ensures tree.Some? ==> Shaped(index, tree.value) && Reaches(LinksIn(index), tree.value.id, runId)
    ensures tree.Some? ==> forall x ::
      Runs(tree.value)[x] == if x in index && Reaches(LinksIn(index), tree.value.id, x) then 1 else 0
    ensures tree.Some? ==> Runs(tree.value)[runId] == 1
  {
    if !ValidRunId(runId) || runId !in index {
      return None;
    }
    var root := FindRoot(index, runId);
    ghost var links := LinksIn(index);
    var builder := new Builder(index, order, root);
    RootIsNotBelow(links, root);
    var node := builder.Build(root, root, 0);
    forall x ensures x in {root} + Below(links, root, root) <==> x in index && Reaches(links, root, x) {
      BelowRootReaches(links, root, x);
    }
    tree := Some(node);
  }

  lemma RootIsNotBelow(links: Links, root: string)
    ensures root !in Below(links, root, root)
  {
    NotBelowItself(links, root, root, 0);
  }

  lemma BelowRootReaches(links: Links, root: string, x: string)
    requires root in links
    ensures x in {root} + Below(links, root, root) <==> x in links && Reaches(links, root, x)
  {
    if x in links && Reaches(links, root, x) {
      var hops: nat :| Climb(links, x, hops) == Some(root);
      var short := ReachesIsUnder(links, root, x, hops);
    }
    if x in Below(links, root, root) {
      var hops: nat :| hops > 0 && Under(links, root, root, x, hops);
      UnderClimbs(links, root, root, x, hops);
    }
    if x == root { assert Climb(links, x, 0) == Some(root); }
  }
}
