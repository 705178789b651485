// The scene graph: shared nodes and edges, changed in place, and unfolded from its roots into a forest.
module SceneGraph {
  import opened GraphPaths
  import opened Scene
  import opened Sequences

  datatype Tree = Tree(node: Node, children: seq<Tree>)

  // ---------- well-formed states ----------

  // Every endpoint of an edge is a stored node.
  predicate Closed(nodes: seq<Ptr>, edges: seq<Edge>) {
    forall e :: e in edges ==> e.from in nodes && e.to in nodes
  }

  predicate IsRoot(nodes: seq<Ptr>, edges: seq<Edge>, p: Ptr) {
    p in nodes && forall e :: e in edges ==> e.to != p
  }

  // The roots, each once, in some order: the order of the map is that of the pointers.
  ghost predicate RootSequence(nodes: seq<Ptr>, edges: seq<Edge>, roots: seq<Ptr>) {
    Distinct(roots) && forall p :: p in roots <==> IsRoot(nodes, edges, p)
  }

  // ---------- unfolding ----------

  // The subtrees along the first n edges.
  function SubTrees(edges: seq<Edge>, n: nat, p: Ptr): seq<Tree>
    requires Acyclic(edges) && n <= |edges|
    decreases Descendants(edges, p.node.id), n
  {
    if n == 0 then []
    else
      var init, e := SubTrees(edges, n - 1, p), edges[n - 1];
      if e.from.node.id == p.node.id then
        DescendantsDecrease(edges, e);
        init + [SubTree(edges, e.to)]
      else init
  }

  function SubTree(edges: seq<Edge>, p: Ptr): Tree
    requires Acyclic(edges)
    decreases Descendants(edges, p.node.id), |edges| + 1
  {
    Tree(p.node, SubTrees(edges, |edges|, p))
  }

  // The edges that leave a node, from left to right.
  predicate OutEdges(edges: seq<Edge>, p: Ptr, n: nat, at: seq<nat>)
    requires n <= |edges|
  {
    Rising(at, n) && forall i: nat :: i < n ==> (i in at <==> edges[i].from.node.id == p.node.id)
  }

  // A tree that has the node at its top and below it, one for each edge that leaves the node and in the order of the
  // edges, the unfoldings of their targets.
  ghost predicate IsUnfolding(edges: seq<Edge>, p: Ptr, tree: Tree)
    decreases tree
  {
    && tree.node == p.node
    && exists at: seq<nat> :: OutEdges(edges, p, |edges|, at) && |at| == |tree.children| &&
         forall k :: 0 <= k < |at| ==> IsUnfolding(edges, edges[at[k]].to, tree.children[k])
  }

  lemma NoOutEdges(edges: seq<Edge>, p: Ptr)
    ensures OutEdges(edges, p, 0, [])
  {
  }

  lemma OneMoreOutEdge(edges: seq<Edge>, p: Ptr, n: nat, at: seq<nat>)
    requires n < |edges| && OutEdges(edges, p, n, at)
    ensures OutEdges(edges, p, n + 1, if edges[n].from.node.id == p.node.id then at + [n] else at)
  {
  }

  /** Unfolding gives each node its subtrees, edge by edge. */
  lemma {:induction false} SubTreeUnfolds(edges: seq<Edge>, p: Ptr)
    requires Acyclic(edges)
    ensures IsUnfolding(edges, p, SubTree(edges, p))
    decreases Descendants(edges, p.node.id), |edges| + 1
  {
    var at := SubTreesUnfold(edges, |edges|, p);
  }

  lemma {:induction false} SubTreesUnfold(edges: seq<Edge>, n: nat, p: Ptr) returns (at: seq<nat>)
    requires Acyclic(edges) && n <= |edges|
    ensures OutEdges(edges, p, n, at) && |at| == |SubTrees(edges, n, p)|
    ensures forall k :: 0 <= k < |at| ==> IsUnfolding(edges, edges[at[k]].to, SubTrees(edges, n, p)[k])
    decreases Descendants(edges, p.node.id), n
  {
    hide IsUnfolding, OutEdges;
    if n == 0 {
      at := [];
      NoOutEdges(edges, p);
    } else {
      at := SubTreesUnfold(edges, n - 1, p);
      var e := edges[n - 1];
      OneMoreOutEdge(edges, p, n - 1, at);
      if e.from.node.id == p.node.id {
        DescendantsDecrease(edges, e);
        SubTreeUnfolds(edges, e.to);
        at := at + [n - 1];
      }
    }
  }

  lemma SameOutEdges(edges: seq<Edge>, p: Ptr, a: seq<nat>, b: seq<nat>)
    requires OutEdges(edges, p, |edges|, a) && OutEdges(edges, p, |edges|, b)
    ensures a == b
  {
    forall i: nat ensures i in a <==> i in b {
      if i in a || i in b {
        assert i < |edges|;
      }
    }
    RisingUnique(a, b, |edges|);
  }

  lemma UnfoldingEdges(edges: seq<Edge>, p: Ptr, t: Tree) returns (at: seq<nat>)
    requires IsUnfolding(edges, p, t)
    ensures t.node == p.node && OutEdges(edges, p, |edges|, at) && |at| == |t.children|
    ensures forall k :: 0 <= k < |at| ==> at[k] < |edges| && IsUnfolding(edges, edges[at[k]].to, t.children[k])
  {
    at :| OutEdges(edges, p, |edges|, at) && |at| == |t.children| &&
      forall k :: 0 <= k < |at| ==> IsUnfolding(edges, edges[at[k]].to, t.children[k]);
  }

  /** And that determines the tree. */
  lemma {:induction false} UnfoldingUnique(edges: seq<Edge>, p: Ptr, t: Tree, u: Tree)
    requires IsUnfolding(edges, p, t) && IsUnfolding(edges, p, u)
    ensures t == u
    decreases t
  {
    hide IsUnfolding, OutEdges;
    var a := UnfoldingEdges(edges, p, t);
    var b := UnfoldingEdges(edges, p, u);
    SameOutEdges(edges, p, a, b);
    forall k | 0 <= k < |a| ensures t.children[k] == u.children[k] {
      UnfoldingUnique(edges, edges[a[k]].to, t.children[k], u.children[k]);
    }
  }

  function Forest(edges: seq<Edge>, roots: seq<Ptr>): seq<Tree>
    requires Acyclic(edges)
  {
    if roots == [] then [] else Forest(edges, roots[..|roots| - 1]) + [SubTree(edges, roots[|roots| - 1])]
  }

  // ---------- the graph as it runs ----------

  function InDegree(edges: seq<Edge>, p: Ptr): nat {
    if edges == [] then 0
    else InDegree(edges[..|edges| - 1], p) + if edges[|edges| - 1].to == p then 1 else 0
  }

  lemma {:induction false} InDegreeZero(edges: seq<Edge>, p: Ptr)
    ensures InDegree(edges, p) == 0 <==> forall e :: e in edges ==> e.to != p
  {
    if edges != [] {
      var n := |edges| - 1;
      assert edges == edges[..n] + [edges[n]];
      InDegreeZero(edges[..n], p);
    }
  }

  function WithoutNode(nodes: seq<Ptr>, id: Id): seq<Ptr> {
    if nodes == [] then []
    else
      var init, last := WithoutNode(nodes[..|nodes| - 1], id), nodes[|nodes| - 1];
      if last.node.id == id then init else init + [last]
  }

  function WithoutEdgesOf(edges: seq<Edge>, id: Id): seq<Edge> {
    if edges == [] then []
    else
      var init, last := WithoutEdgesOf(edges[..|edges| - 1], id), edges[|edges| - 1];
      if last.from.node.id == id || last.to.node.id == id then init else init + [last]
  }

  function WithoutEdge(edges: seq<Edge>, from: Id, to: Id): seq<Edge> {
    if edges == [] then []
    else
      var init, last := WithoutEdge(edges[..|edges| - 1], from, to), edges[|edges| - 1];
      if last.from.node.id == from && last.to.node.id == to then init else init + [last]
  }

  predicate Touches(e: Edge, id: Id) {
    e.from.node.id == id || e.to.node.id == id
  }

  predicate Joins(e: Edge, from: Id, to: Id) {
    e.from.node.id == from && e.to.node.id == to
  }

  // What removal leaves: every other element, as often as before and in the same order.

  lemma {:induction false} NodesLeftCount(nodes: seq<Ptr>, id: Id)
    ensures forall p :: multiset(WithoutNode(nodes, id))[p] == if p.node.id == id then 0 else multiset(nodes)[p]
    ensures Subsequence(WithoutNode(nodes, id), nodes)
    decreases |nodes|
  {
    if nodes == [] {
      EmptySubsequence(nodes);
    } else {
      var n := |nodes| - 1;
      assert nodes == nodes[..n] + [nodes[n]];
      NodesLeftCount(nodes[..n], id);
      OneMoreElement(WithoutNode(nodes[..n], id), nodes[..n], nodes[n]);
    }
  }

  lemma {:induction false} EdgesLeftCount(edges: seq<Edge>, id: Id)
    ensures forall e :: multiset(WithoutEdgesOf(edges, id))[e] == if Touches(e, id) then 0 else multiset(edges)[e]
    ensures Subsequence(WithoutEdgesOf(edges, id), edges)
    decreases |edges|
  {
    if edges == [] {
      EmptySubsequence(edges);
    } else {
      var n := |edges| - 1;
      assert edges == edges[..n] + [edges[n]];
      EdgesLeftCount(edges[..n], id);
      OneMoreElement(WithoutEdgesOf(edges[..n], id), edges[..n], edges[n]);
    }
  }

  lemma {:induction false} OtherEdgesLeftCount(edges: seq<Edge>, from: Id, to: Id)
    ensures forall e :: multiset(WithoutEdge(edges, from, to))[e] == if Joins(e, from, to) then 0 else multiset(edges)[e]
    ensures Subsequence(WithoutEdge(edges, from, to), edges)
    decreases |edges|
  {
    if edges == [] {
      EmptySubsequence(edges);
    } else {
      var n := |edges| - 1;
      assert edges == edges[..n] + [edges[n]];
      OtherEdgesLeftCount(edges[..n], from, to);
      OneMoreElement(WithoutEdge(edges[..n], from, to), edges[..n], edges[n]);
    }
  }

  lemma {:induction false} NodesLeft(nodes: seq<Ptr>, id: Id, p: Ptr)
    ensures p in WithoutNode(nodes, id) <==> p in nodes && p.node.id != id
  {
    if nodes != [] {
      var n := |nodes| - 1;
      assert nodes == nodes[..n] + [nodes[n]];
      NodesLeft(nodes[..n], id, p);
    }
  }

  lemma {:induction false} EdgesLeft(edges: seq<Edge>, id: Id, e: Edge)
    ensures e in WithoutEdgesOf(edges, id) <==> e in edges && e.from.node.id != id && e.to.node.id != id
  {
    if edges != [] {
      var n := |edges| - 1;
      assert edges == edges[..n] + [edges[n]];
      EdgesLeft(edges[..n], id, e);
    }
  }

  lemma {:induction false} OtherEdgesLeft(edges: seq<Edge>, from: Id, to: Id, e: Edge)
    ensures e in WithoutEdge(edges, from, to) <==> e in edges && !(e.from.node.id == from && e.to.node.id == to)
  {
    if edges != [] {
      var n := |edges| - 1;
      assert edges == edges[..n] + [edges[n]];
      OtherEdgesLeft(edges[..n], from, to, e);
    }
  }

  /** Removing a node, and with it its edges, keeps a graph acyclic and closed. */
  lemma RemoveKeeps(nodes: seq<Ptr>, edges: seq<Edge>, id: Id)
    ensures Acyclic(edges) ==> Acyclic(WithoutEdgesOf(edges, id))
    ensures Closed(nodes, edges) ==> Closed(WithoutNode(nodes, id), WithoutEdgesOf(edges, id))
  {
    forall e | e in WithoutEdgesOf(edges, id) ensures e in edges && e.from.node.id != id && e.to.node.id != id {
      EdgesLeft(edges, id, e);
    }
    if Acyclic(edges) {
      FewerEdgesAcyclic(WithoutEdgesOf(edges, id), edges);
    }
    if Closed(nodes, edges) {
      forall e | e in WithoutEdgesOf(edges, id)
        ensures e.from in WithoutNode(nodes, id) && e.to in WithoutNode(nodes, id)
      {
        NodesLeft(nodes, id, e.from);
        NodesLeft(nodes, id, e.to);
      }
    }
  }

  /** So does removing an edge. */
  lemma DisconnectKeeps(nodes: seq<Ptr>, edges: seq<Edge>, from: Id, to: Id)
    ensures Acyclic(edges) ==> Acyclic(WithoutEdge(edges, from, to))
    ensures Closed(nodes, edges) ==> Closed(nodes, WithoutEdge(edges, from, to))
  {
    forall e | e in WithoutEdge(edges, from, to) ensures e in edges {
      OtherEdgesLeft(edges, from, to, e);
    }
    if Acyclic(edges) {
      FewerEdgesAcyclic(WithoutEdge(edges, from, to), edges);
    }
  }

  // Of several nodes with one identifier, the last stored one.
  ghost predicate LastWith(nodes: seq<Ptr>, id: Id, p: Ptr) {
    exists i :: 0 <= i < |nodes| && nodes[i] == p && p.node.id == id && forall j :: i < j < |nodes| ==> nodes[j].node.id != id
  }

  lemma NextNode(nodes: seq<Ptr>, next: Ptr, id: Id)
    ensures next.node.id == id ==> LastWith(nodes + [next], id, next)
    ensures next.node.id != id ==> forall p :: LastWith(nodes, id, p) ==> LastWith(nodes + [next], id, p)
  {
    assert (nodes + [next])[|nodes|] == next;
    forall p | next.node.id != id && LastWith(nodes, id, p) ensures LastWith(nodes + [next], id, p) {
      var i :| 0 <= i < |nodes| && nodes[i] == p && forall j :: i < j < |nodes| ==> nodes[j].node.id != id;
      assert (nodes + [next])[i] == p;
    }
  }

  class Graph {
    var nodes: seq<Ptr>
    var edges: seq<Edge>

    constructor (es: seq<Edge>, ns: seq<Ptr>)
      ensures nodes == ns && edges == es
    {
      nodes, edges := ns, es;
    }

    method Create(p: Ptr)
      modifies this
      ensures nodes == old(nodes) + [p] && edges == old(edges)
      ensures old(Closed(nodes, edges)) ==> Closed(nodes, edges)
    {
      nodes := nodes + [p];
    }

    method Remove(p: Ptr)
      modifies this
      ensures nodes == WithoutNode(old(nodes), p.node.id) && edges == WithoutEdgesOf(old(edges), p.node.id)
      ensures old(Acyclic(edges)) ==> Acyclic(edges)
      ensures old(Closed(nodes, edges)) ==> Closed(nodes, edges)
      ensures forall q :: q in nodes ==> q.node.id != p.node.id
      ensures forall q :: multiset(nodes)[q] == if q.node.id == p.node.id then 0 else multiset(old(nodes))[q]
      ensures forall e :: multiset(edges)[e] == if Touches(e, p.node.id) then 0 else multiset(old(edges))[e]
      ensures Subsequence(nodes, old(nodes)) && Subsequence(edges, old(edges))
    {
      hide Touches;
      RemoveKeeps(nodes, edges, p.node.id);
      NodesLeftCount(nodes, p.node.id);
      EdgesLeftCount(edges, p.node.id);
      ghost var before := nodes;
      nodes := WithoutNode(nodes, p.node.id);
      edges := WithoutEdgesOf(edges, p.node.id);
      forall q | q in nodes ensures q.node.id != p.node.id {
        NodesLeft(before, p.node.id, q);
      }
    }

    method Disconnect(from: Id, to: Id)
      modifies this
      ensures nodes == old(nodes) && edges == WithoutEdge(old(edges), from, to)
      ensures forall e :: multiset(edges)[e] == if Joins(e, from, to) then 0 else multiset(old(edges))[e]
      ensures Subsequence(edges, old(edges))
      ensures old(Acyclic(edges)) ==> Acyclic(edges)
      ensures old(Closed(nodes, edges)) ==> Closed(nodes, edges)
    {
      DisconnectKeeps(nodes, edges, from, to);
      OtherEdgesLeftCount(edges, from, to);
      edges := WithoutEdge(edges, from, to);
    }

    /** Connects two stored nodes; the edge's own assertion rules out a node with itself. */
    method Connect(from: Id, to: Id)
      requires from != to && (exists p :: p in nodes && p.node.id == from) && (exists p :: p in nodes && p.node.id == to)
      modifies this
      ensures nodes == old(nodes)
      ensures |edges| == |old(edges)| + 1 && edges[..|old(edges)|] == old(edges)
      ensures var e := edges[|old(edges)|];
              e.from in nodes && e.to in nodes && e.from.node.id == from && e.to.node.id == to &&
              LastWith(nodes, from, e.from) && LastWith(nodes, to, e.to)
      ensures old(Closed(nodes, edges)) ==> Closed(nodes, edges)
      ensures old(Acyclic(edges)) ==> (Acyclic(edges) <==> !old(Reaches(edges, to, from)))
    {
      hide LastWith, Acyclic, Reaches;
      var start, end: seq<Ptr> := [], [];
      for i := 0 to |nodes|
        invariant nodes == old(nodes) && edges == old(edges)
        invariant |start| <= 1 && |end| <= 1
        invariant start != [] ==> start[0] in nodes && start[0].node.id == from
        invariant end != [] ==> end[0] in nodes && end[0].node.id == to
        invariant forall j :: 0 <= j < i && nodes[j].node.id == from ==> start != []
        invariant forall j :: 0 <= j < i && nodes[j].node.id == to ==> end != []
        invariant start != [] ==> LastWith(nodes[..i], from, start[0])
        invariant end != [] ==> LastWith(nodes[..i], to, end[0])
      {
        NextNode(nodes[..i], nodes[i], from);
        NextNode(nodes[..i], nodes[i], to);
        assert nodes[..i + 1] == nodes[..i] + [nodes[i]];
        if nodes[i].node.id == from {
          start := [nodes[i]];
        } else if nodes[i].node.id == to {
          end := [nodes[i]];
        }
      }
      assert nodes[..|nodes|] == nodes;
      var e := Edge(start[0], end[0]);
      if Acyclic(edges) {
        ConnectAcyclicIff(edges, e);
      }
      edges := edges + [e];
    }

    /** The nodes that no edge ends at, each once; in a closed graph the lookup of an edge's target never misses. */
    method Roots() returns (res: seq<Ptr>)
      requires Closed(nodes, edges)
      ensures RootSequence(nodes, edges, res)
    {
      var edgesIn: map<Ptr, nat> := map[];
      for i := 0 to |nodes|
        invariant forall p :: p in edgesIn <==> p in nodes[..i]
        invariant forall p :: p in edgesIn ==> edgesIn[p] == 0
      {
        edgesIn := if nodes[i] in edgesIn then edgesIn else edgesIn[nodes[i] := 0];
        assert nodes[..i + 1] == nodes[..i] + [nodes[i]];
      }
      assert nodes[..|nodes|] == nodes;
      for i := 0 to |edges|
        invariant forall p :: p in edgesIn <==> p in nodes
        invariant forall p :: p in edgesIn ==> edgesIn[p] == InDegree(edges[..i], p)
      {
        var to := edges[i].to;
        edgesIn := edgesIn[to := edgesIn[to] + 1];
        assert edges[..i + 1][..i] == edges[..i];
      }
      assert edges[..|edges|] == edges;
      res := [];
      var left := edgesIn.Keys;
      while left != {}
        invariant left <= edgesIn.Keys
        invariant Distinct(res)
        invariant forall p :: p in res <==> p in edgesIn && p !in left && edgesIn[p] == 0
        decreases |left|
      {
        var p :| p in left;
        if edgesIn[p] == 0 {
          res := res + [p];
        }
        left := left - {p};
      }
      forall p ensures p in res <==> IsRoot(nodes, edges, p) {
        InDegreeZero(edges, p);
      }
    }

    method SubTreeOf(p: Ptr) returns (tree: Tree)
      requires Acyclic(edges)
      ensures tree == SubTree(edges, p)
      ensures IsUnfolding(edges, p, tree)
      decreases Descendants(edges, p.node.id)
    {
      var subtrees := [];
      for i := 0 to |edges|
        invariant subtrees == SubTrees(edges, i, p)
      {
        if edges[i].from.node.id == p.node.id {
          DescendantsDecrease(edges, edges[i]);
          var subtree := SubTreeOf(edges[i].to);
          subtrees := subtrees + [subtree];
        }
      }
      tree := Tree(p.node, subtrees);
      SubTreeUnfolds(edges, p);
    }

    /** One tree for each root, in the order of the roots. */
    method Trees() returns (res: seq<Tree>)
      requires Closed(nodes, edges) && Acyclic(edges)
      ensures exists roots :: RootSequence(nodes, edges, roots) && res == Forest(edges, roots) && |res| == |roots| &&
                forall k :: 0 <= k < |res| ==> IsUnfolding(edges, roots[k], res[k])
    {
      hide IsUnfolding, RootSequence, Acyclic, Closed;
      res := [];
      var rs := Roots();
      for i := 0 to |rs|
        invariant res == Forest(edges, rs[..i]) && |res| == i
        invariant forall k :: 0 <= k < i ==> IsUnfolding(edges, rs[k], res[k])
      {
        var tree := SubTreeOf(rs[i]);
        res := res + [tree];
        assert rs[..i + 1][..i] == rs[..i];
      }
      assert rs[..|rs|] == rs;
    }
  }
}
