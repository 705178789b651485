// Scenes whose set operations are all unions: the shape is the least of all spheres, however they are shared.
module UnionScenes {
  import opened GraphPaths
  import opened Scene
  import opened SceneGraph
  import opened Sequences
  import opened Surface
  import opened Unfolding
  import opened Wrappers

  function Level(node: Node, p: Point): real
    requires node.Sphere?
  {
    SphereLevel(node.center, node.magnitude, p)
  }

  // ---------- trees ----------

  predicate UnionTree(tree: Tree) {
    match tree.node
    case Sphere(_, _, _) => tree.children == []
    case SetOp(_, operation) =>
      operation == Union && forall i :: 0 <= i < |tree.children| ==> UnionTree(tree.children[i])
  }

  ghost predicate HasSphere(tree: Tree) {
    exists node :: HasNode(tree, node) && node.Sphere?
  }

  ghost predicate LeastLevel(tree: Tree, p: Point, v: real) {
    && (exists node :: HasNode(tree, node) && node.Sphere? && v == Level(node, p))
    && forall node :: HasNode(tree, node) && node.Sphere? ==> v <= Level(node, p)
  }

  lemma ChildHas(tree: Tree, i: nat, node: Node)
    requires i < |tree.children| && HasNode(tree.children[i], node)
    ensures HasNode(tree, node)
  {
  }

  lemma {:induction false} SolidHasSphere(tree: Tree)
    requires UnionTree(tree)
    ensures Solid(tree) <==> HasSphere(tree)
    decreases tree
  {
    if tree.node.Sphere? {
      assert HasNode(tree, tree.node);
    } else {
      if i :| 0 <= i < |tree.children| && Solid(tree.children[i]) {
        SolidHasSphere(tree.children[i]);
        var node :| HasNode(tree.children[i], node) && node.Sphere?;
        ChildHas(tree, i, node);
      }
      if node :| HasNode(tree, node) && node.Sphere? {
        var i :| 0 <= i < |tree.children| && HasNode(tree.children[i], node);
        SolidHasSphere(tree.children[i]);
      }
    }
  }

  // The union of several such trees.
  lemma {:induction false} UnionTreesLevel(trees: seq<Tree>, p: Point)
    requires forall i :: 0 <= i < |trees| ==> UnionTree(trees[i])
    requires Aggregate(Union, CompileAll(trees)).Some?
    ensures var v := Eval(Aggregate(Union, CompileAll(trees)).value, p);
            (exists i, node :: 0 <= i < |trees| && HasNode(trees[i], node) && node.Sphere? && v == Level(node, p)) &&
            (forall i, node :: 0 <= i < |trees| && HasNode(trees[i], node) && node.Sphere? ==> v <= Level(node, p))
    decreases trees
  {
    var es := CompileAll(trees);
    AggregateIsExtreme(Union, es, p);
    var v := Eval(Aggregate(Union, es).value, p);
    var e :| e in es && Eval(e, p) == v;
    CompiledMembers(trees, e);
    var t :| t in trees && Compile(t) == Some(e);
    var i :| 0 <= i < |trees| && trees[i] == t;
    CompiledSolid(t);
    UnionTreeLevel(trees[i], p);
    forall k, node | 0 <= k < |trees| && HasNode(trees[k], node) && node.Sphere? ensures v <= Level(node, p) {
      SolidHasSphere(trees[k]);
      CompiledSolid(trees[k]);
      UnionTreeLevel(trees[k], p);
      CompiledMembers(trees, Compile(trees[k]).value);
    }
  }

  lemma {:induction false} UnionTreeLevel(tree: Tree, p: Point)
    requires UnionTree(tree) && Solid(tree)
    ensures Compile(tree).Some? && LeastLevel(tree, p, Eval(Compile(tree).value, p))
    decreases tree, 0
  {
    CompiledSolid(tree);
    match tree.node
    case Sphere(_, center, magnitude) =>
      SphereValue(center, magnitude, p);
      assert HasNode(tree, tree.node);
    case SetOp(_, _) =>
      UnionTreesLevel(tree.children, p);
      var v := Eval(Compile(tree).value, p);
      var i, node :| 0 <= i < |tree.children| && HasNode(tree.children[i], node) && node.Sphere? && v == Level(node, p);
      ChildHas(tree, i, node);
      forall node | HasNode(tree, node) && node.Sphere? ensures v <= Level(node, p) {
        var k :| 0 <= k < |tree.children| && HasNode(tree.children[k], node);
      }
  }

  // ---------- graphs ----------

  predicate AllUnion(nodes: seq<Ptr>) {
    forall p :: p in nodes && p.node.SetOp? ==> p.node.operation == Union
  }

  // No edge starts at a sphere.
  predicate LeafSpheres(nodes: seq<Ptr>, edges: seq<Edge>) {
    forall e, p :: e in edges && p in nodes && p.node.Sphere? ==> p.node.id != e.from.node.id
  }

  lemma {:induction false} SubTreeIsUnion(nodes: seq<Ptr>, edges: seq<Edge>, p: Ptr)
    requires Closed(nodes, edges) && Acyclic(edges) && AllUnion(nodes) && LeafSpheres(nodes, edges) && p in nodes
    ensures UnionTree(SubTree(edges, p))
    decreases Descendants(edges, p.node.id)
  {
    var tree := SubTree(edges, p);
    if p.node.Sphere? {
      if tree.children != [] {
        var j := SubTreesAre(edges, |edges|, p, 0);
      }
    } else {
      forall k | 0 <= k < |tree.children| ensures UnionTree(tree.children[k]) {
        var j := SubTreesAre(edges, |edges|, p, k);
        DescendantsDecrease(edges, edges[j]);
        SubTreeIsUnion(nodes, edges, edges[j].to);
      }
    }
  }

  ghost predicate LeastOfSpheres(nodes: seq<Ptr>, p: Point, v: real) {
    && (exists q :: q in nodes && q.node.Sphere? && v == Level(q.node, p))
    && forall q :: q in nodes && q.node.Sphere? ==> v <= Level(q.node, p)
  }

  lemma ForestIsUnion(nodes: seq<Ptr>, edges: seq<Edge>, roots: seq<Ptr>, tree: Tree)
    requires Closed(nodes, edges) && Acyclic(edges) && AllUnion(nodes) && LeafSpheres(nodes, edges)
    requires RootSequence(nodes, edges, roots) && tree in Forest(edges, roots)
    ensures UnionTree(tree)
    ensures forall node :: HasNode(tree, node) ==> exists q :: q in nodes && q.node == node
  {
    var root := ForestIs(edges, roots, tree);
    SubTreeIsUnion(nodes, edges, root);
    forall node | HasNode(tree, node) ensures exists q :: q in nodes && q.node == node {
      TreeNodesStored(nodes, edges, root, node);
    }
  }

  /** For a closed acyclic graph of unions over leaf spheres, the shape built from its trees exists exactly when the
      graph has a sphere, and its value everywhere is the least over all sphere nodes. */
  lemma ShapeIsLeastSphere(nodes: seq<Ptr>, edges: seq<Edge>, roots: seq<Ptr>, p: Point)
    requires Closed(nodes, edges) && Acyclic(edges) && AllUnion(nodes) && LeafSpheres(nodes, edges)
    requires RootSequence(nodes, edges, roots)
    ensures Shape(Forest(edges, roots)).Some? <==> exists q :: q in nodes && q.node.Sphere?
    ensures Shape(Forest(edges, roots)).Some? ==> LeastOfSpheres(nodes, p, Eval(Shape(Forest(edges, roots)).value, p))
  {
    hide UnionTree, Solid, Compile, HasNode, SubTree, Forest;
    var trees := Forest(edges, roots);
    forall tree | tree in trees ensures UnionTree(tree) {
      ForestIsUnion(nodes, edges, roots, tree);
    }
    ShapeMeaning(trees, p);
    if q :| q in nodes && q.node.Sphere? {
      ForestCovers(nodes, edges, roots, q);
      var tree :| tree in trees && HasNode(tree, q.node);
      SolidHasSphere(tree);
    }
    if Shape(trees).Some? {
      UnionTreesLevel(trees, p);
      var v := Eval(Shape(trees).value, p);
      var i, node :| 0 <= i < |trees| && HasNode(trees[i], node) && node.Sphere? && v == Level(node, p);
      ForestIsUnion(nodes, edges, roots, trees[i]);
      forall q | q in nodes && q.node.Sphere? ensures v <= Level(q.node, p) {
        ForestCovers(nodes, edges, roots, q);
        var tree :| tree in trees && HasNode(tree, q.node);
        var k :| 0 <= k < |trees| && trees[k] == tree;
      }
    }
  }

  /** The mesh generator's input for a graph object of that kind. */
  method ShapeOfGraph(g: Graph) returns (shape: Option<Expr>)
    requires Closed(g.nodes, g.edges) && Acyclic(g.edges) && AllUnion(g.nodes) && LeafSpheres(g.nodes, g.edges)
    ensures shape.Some? <==> exists q :: q in g.nodes && q.node.Sphere?
    ensures shape.Some? ==> forall p :: LeastOfSpheres(g.nodes, p, Eval(shape.value, p))
  {
    hide Shape, Forest, LeastOfSpheres, Eval;
    var trees := g.Trees();
    ghost var roots :| RootSequence(g.nodes, g.edges, roots) && trees == Forest(g.edges, roots);
    shape := ShapeOf(trees);
    ShapeIsLeastSphere(g.nodes, g.edges, roots, Point(0.0, 0.0, 0.0));
    if shape.Some? {
      forall p ensures LeastOfSpheres(g.nodes, p, Eval(shape.value, p)) {
        ShapeIsLeastSphere(g.nodes, g.edges, roots, p);
      }
    }
  }
}
