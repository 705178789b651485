// What the forest of trees contains: every node, as often as there are paths to it from a root.
module Unfolding {
  import opened GraphPaths
  import opened Scene
  import opened SceneGraph
  import opened Sequences

  // ---------- coverage ----------

  predicate HasNode(tree: Tree, node: Node) {
    tree.node == node || exists i :: 0 <= i < |tree.children| && HasNode(tree.children[i], node)
  }

  lemma {:induction false} SubTreesHave(edges: seq<Edge>, n: nat, p: Ptr, i: nat)
    requires Acyclic(edges) && n <= |edges| && i < n && edges[i].from.node.id == p.node.id
    ensures exists k :: 0 <= k < |SubTrees(edges, n, p)| && SubTrees(edges, n, p)[k] == SubTree(edges, edges[i].to)
    decreases n
  {
    var ts := SubTrees(edges, n, p);
    if i == n - 1 {
      assert ts[|ts| - 1] == SubTree(edges, edges[i].to);
    } else {
      SubTreesHave(edges, n - 1, p, i);
      var k :| 0 <= k < |SubTrees(edges, n - 1, p)| && SubTrees(edges, n - 1, p)[k] == SubTree(edges, edges[i].to);
      assert ts[k] == SubTree(edges, edges[i].to);
    }
  }

  lemma {:induction false} SubTreesAre(edges: seq<Edge>, n: nat, p: Ptr, k: nat) returns (i: nat)
    requires Acyclic(edges) && n <= |edges| && k < |SubTrees(edges, n, p)|
    ensures i < n && edges[i].from.node.id == p.node.id && SubTrees(edges, n, p)[k] == SubTree(edges, edges[i].to)
    decreases n
  {
    var init := SubTrees(edges, n - 1, p);
    if k < |init| {
      i := SubTreesAre(edges, n - 1, p, k);
    } else {
      i := n - 1;
    }
  }

  // Where a tree has the source of an edge, it has the target.
  lemma {:induction false} HasTarget(edges: seq<Edge>, p: Ptr, i: nat)
    requires Acyclic(edges) && i < |edges| && HasNode(SubTree(edges, p), edges[i].from.node)
    ensures HasNode(SubTree(edges, p), edges[i].to.node)
    decreases Descendants(edges, p.node.id)
  {
    var tree := SubTree(edges, p);
    if p.node == edges[i].from.node {
      SubTreesHave(edges, |edges|, p, i);
      var k :| 0 <= k < |tree.children| && tree.children[k] == SubTree(edges, edges[i].to);
      assert HasNode(tree.children[k], edges[i].to.node);
    } else {
      var k :| 0 <= k < |tree.children| && HasNode(tree.children[k], edges[i].from.node);
      var j := SubTreesAre(edges, |edges|, p, k);
      DescendantsDecrease(edges, edges[j]);
      HasTarget(edges, edges[j].to, i);
    }
  }

  // From every stored node one can walk back to a root.
  lemma {:induction false} SomeRootHas(nodes: seq<Ptr>, edges: seq<Edge>, p: Ptr) returns (root: Ptr)
    requires Closed(nodes, edges) && Acyclic(edges) && p in nodes
    ensures IsRoot(nodes, edges, root) && HasNode(SubTree(edges, root), p.node)
    decreases Ancestors(edges, p.node.id)
  {
    if IsRoot(nodes, edges, p) {
      root := p;
    } else {
      var e :| e in edges && e.to == p;
      var i :| 0 <= i < |edges| && edges[i] == e;
      AncestorsDecrease(edges, e);
      root := SomeRootHas(nodes, edges, e.from);
      HasTarget(edges, root, i);
    }
  }

  lemma {:induction false} ForestHas(edges: seq<Edge>, roots: seq<Ptr>, root: Ptr)
    requires Acyclic(edges) && root in roots
    ensures SubTree(edges, root) in Forest(edges, roots)
    decreases |roots|
  {
    var n := |roots| - 1;
    assert roots == roots[..n] + [roots[n]];
    if root in roots[..n] {
      ForestHas(edges, roots[..n], root);
    }
  }

  lemma {:induction false} ForestIs(edges: seq<Edge>, roots: seq<Ptr>, tree: Tree) returns (root: Ptr)
    requires Acyclic(edges) && tree in Forest(edges, roots)
    ensures root in roots && tree == SubTree(edges, root)
    decreases |roots|
  {
    var n := |roots| - 1;
    if tree in Forest(edges, roots[..n]) {
      root := ForestIs(edges, roots[..n], tree);
    } else {
      root := roots[n];
    }
  }

  /** The forest of a closed acyclic graph contains every node, whatever the order of the roots. */
  lemma ForestCovers(nodes: seq<Ptr>, edges: seq<Edge>, roots: seq<Ptr>, p: Ptr)
    requires Closed(nodes, edges) && Acyclic(edges) && RootSequence(nodes, edges, roots) && p in nodes
    ensures exists tree :: tree in Forest(edges, roots) && HasNode(tree, p.node)
  {
    var root := SomeRootHas(nodes, edges, p);
    ForestHas(edges, roots, root);
  }

  // ... and nothing else.
  lemma {:induction false} TreeNodesStored(nodes: seq<Ptr>, edges: seq<Edge>, p: Ptr, node: Node)
    requires Closed(nodes, edges) && Acyclic(edges) && p in nodes && HasNode(SubTree(edges, p), node)
    ensures exists q :: q in nodes && q.node == node
    decreases Descendants(edges, p.node.id)
  {
    var tree := SubTree(edges, p);
    if p.node != node {
      var k :| 0 <= k < |tree.children| && HasNode(tree.children[k], node);
      var j := SubTreesAre(edges, |edges|, p, k);
      DescendantsDecrease(edges, edges[j]);
      TreeNodesStored(nodes, edges, edges[j].to, node);
    }
  }

  // ---------- multiplicity ----------

  function ForestOccurrences(trees: seq<Tree>, id: Id): nat
    decreases trees
  {
    if trees == [] then 0 else ForestOccurrences(trees[..|trees| - 1], id) + Occurrences(trees[|trees| - 1], id)
  }

  function Occurrences(tree: Tree, id: Id): nat
    decreases tree, 0
  {
    (if tree.node.id == id then 1 else 0) + ForestOccurrences(tree.children, id)
  }

  function Prefixed(i: nat, paths: set<seq<nat>>): set<seq<nat>> {
    set path | path in paths :: [i] + path
  }

  // Those that start with one of the first n edges.
  function PathsVia(edges: seq<Edge>, n: nat, a: Id, b: Id): set<seq<nat>>
    requires Acyclic(edges) && n <= |edges|
    decreases Descendants(edges, a), n
  {
    if n == 0 then {}
    else
      var init, e := PathsVia(edges, n - 1, a, b), edges[n - 1];
      if e.from.node.id == a then
        DescendantsDecrease(edges, e);
        init + Prefixed(n - 1, Paths(edges, e.to.node.id, b))
      else init
  }

  // The paths from a node to an identifier, as a finite set.
  function Paths(edges: seq<Edge>, a: Id, b: Id): set<seq<nat>>
    requires Acyclic(edges)
    decreases Descendants(edges, a), |edges| + 1
  {
    (if a == b then {[]} else {}) + PathsVia(edges, |edges|, a, b)
  }

  lemma PrefixedMember(i: nat, paths: set<seq<nat>>, path: seq<nat>)
    ensures path in Prefixed(i, paths) <==> path != [] && path[0] == i && path[1..] in paths
  {
    if path in Prefixed(i, paths) {
      var q :| q in paths && path == [i] + q;
      assert path[1..] == q;
    }
    if path != [] && path[0] == i && path[1..] in paths {
      assert path == [i] + path[1..];
    }
  }

  lemma {:induction false} PrefixedSize(i: nat, paths: set<seq<nat>>)
    ensures |Prefixed(i, paths)| == |paths|
    decreases |paths|
  {
    if paths == {} {
      assert Prefixed(i, paths) == {};
    } else {
      var q :| q in paths;
      var others := paths - {q};
      PrefixedSize(i, others);
      forall path ensures path in Prefixed(i, paths) <==> path in Prefixed(i, others) || path == [i] + q {
        PrefixedMember(i, paths, path);
        PrefixedMember(i, others, path);
      }
      PrefixedMember(i, others, [i] + q);
      assert ([i] + q)[1..] == q;
      assert Prefixed(i, paths) == Prefixed(i, others) + {[i] + q};
    }
  }

  /** The set holds exactly the edge paths. */
  lemma {:induction false} PathsMember(edges: seq<Edge>, a: Id, b: Id, path: seq<nat>)
    requires Acyclic(edges)
    ensures path in Paths(edges, a, b) <==> IsPath(edges, a, path, b)
    decreases Descendants(edges, a), |edges| + 1
  {
    PathsViaMember(edges, |edges|, a, b, path);
  }

  lemma {:induction false} PathsViaMember(edges: seq<Edge>, n: nat, a: Id, b: Id, path: seq<nat>)
    requires Acyclic(edges) && n <= |edges|
    ensures path in PathsVia(edges, n, a, b) <==> path != [] && path[0] < n && IsPath(edges, a, path, b)
    decreases Descendants(edges, a), n
  {
    if n > 0 {
      PathsViaMember(edges, n - 1, a, b, path);
      var e := edges[n - 1];
      if e.from.node.id == a {
        DescendantsDecrease(edges, e);
        PrefixedMember(n - 1, Paths(edges, e.to.node.id, b), path);
        if path != [] {
          PathsMember(edges, e.to.node.id, b, path[1..]);
        }
      }
    }
  }

  // The paths that start with the next edge are new ones.
  lemma EdgesApart(edges: seq<Edge>, n: nat, a: Id, b: Id)
    requires Acyclic(edges) && n < |edges|
    ensures var earlier, below := PathsVia(edges, n, a, b), Paths(edges, edges[n].to.node.id, b);
            |earlier + Prefixed(n, below)| == |earlier| + |below|
  {
    hide PathsVia, Paths, Prefixed;
    var earlier, below := PathsVia(edges, n, a, b), Paths(edges, edges[n].to.node.id, b);
    PrefixedSize(n, below);
    forall path | path in earlier ensures path !in Prefixed(n, below) {
      PathsViaMember(edges, n, a, b, path);
      PrefixedMember(n, below, path);
    }
    assert earlier !! Prefixed(n, below);
  }

  /** In the tree of a node, an identifier occurs as often as there are paths to it. */
  lemma {:induction false} OccurrencesArePaths(edges: seq<Edge>, p: Ptr, id: Id)
    requires Acyclic(edges)
    ensures Occurrences(SubTree(edges, p), id) == |Paths(edges, p.node.id, id)|
    decreases Descendants(edges, p.node.id), |edges| + 1
  {
    OccurrencesVia(edges, |edges|, p, id);
    PathsViaMember(edges, |edges|, p.node.id, id, []);
    assert {[]} !! PathsVia(edges, |edges|, p.node.id, id);
  }

  lemma {:induction false} OccurrencesVia(edges: seq<Edge>, n: nat, p: Ptr, id: Id)
    requires Acyclic(edges) && n <= |edges|
    ensures ForestOccurrences(SubTrees(edges, n, p), id) == |PathsVia(edges, n, p.node.id, id)|
    decreases Descendants(edges, p.node.id), n
  {
    if n > 0 {
      OccurrencesVia(edges, n - 1, p, id);
      var e, init := edges[n - 1], SubTrees(edges, n - 1, p);
      if e.from.node.id == p.node.id {
        DescendantsDecrease(edges, e);
        OccurrencesArePaths(edges, e.to, id);
        var ts := SubTrees(edges, n, p);
        assert ts[..|ts| - 1] == init;
        EdgesApart(edges, n - 1, p.node.id, id);
      }
    }
  }

  // Paths from a root, each with the root it starts at.
  function RootPaths(edges: seq<Edge>, roots: seq<Ptr>, id: Id): set<(Ptr, seq<nat>)>
    requires Acyclic(edges)
  {
    set root, path | root in roots && path in Paths(edges, root.node.id, id) :: (root, path)
  }

  function FromRoot(root: Ptr, paths: set<seq<nat>>): set<(Ptr, seq<nat>)> {
    set path | path in paths :: (root, path)
  }

  lemma {:induction false} FromRootSize(root: Ptr, paths: set<seq<nat>>)
    ensures |FromRoot(root, paths)| == |paths|
    decreases |paths|
  {
    if paths == {} {
      assert FromRoot(root, paths) == {};
    } else {
      var q :| q in paths;
      FromRootSize(root, paths - {q});
      assert FromRoot(root, paths) == FromRoot(root, paths - {q}) + {(root, q)};
    }
  }

  lemma RootPathsSplit(edges: seq<Edge>, init: seq<Ptr>, last: Ptr, id: Id)
    requires Acyclic(edges) && last !in init
    ensures RootPaths(edges, init + [last], id) == RootPaths(edges, init, id) + FromRoot(last, Paths(edges, last.node.id, id))
    ensures RootPaths(edges, init, id) !! FromRoot(last, Paths(edges, last.node.id, id))
  {
    hide Paths;
  }

  /** In the whole forest, a node occurs exactly as often as there are edge paths to it from a root. */
  lemma {:induction false} ForestOccurrencesArePaths(edges: seq<Edge>, roots: seq<Ptr>, id: Id)
    requires Acyclic(edges) && Distinct(roots)
    ensures ForestOccurrences(Forest(edges, roots), id) == |RootPaths(edges, roots, id)|
    decreases |roots|
  {
    if roots == [] {
      assert RootPaths(edges, roots, id) == {};
    } else {
      var n := |roots| - 1;
      var init, last := roots[..n], roots[n];
      assert roots == init + [last];
      ForestOccurrencesArePaths(edges, init, id);
      OccurrencesArePaths(edges, last, id);
      var f := Forest(edges, roots);
      assert f[..|f| - 1] == Forest(edges, init);
      var below := FromRoot(last, Paths(edges, last.node.id, id));
      FromRootSize(last, Paths(edges, last.node.id, id));
      RootPathsSplit(edges, init, last, id);
    }
  }
}
