// From trees of spheres and set operations to one expression whose sign tells inside from outside.
module Surface {
  import opened Scene
  import opened SceneGraph
  import opened Unfolding
  import opened Wrappers

  datatype Expr =
    | X | Y | Z
    | Const(value: real)
    | Square(arg: Expr)
    | Add(left: Expr, right: Expr)
    | Sub(left: Expr, right: Expr)
    | Min(left: Expr, right: Expr)
    | Max(left: Expr, right: Expr)

  function Eval(e: Expr, p: Point): real {
    match e
    case X => p.x
    case Y => p.y
    case Z => p.z
    case Const(c) => c
    case Square(a) => Eval(a, p) * Eval(a, p)
    case Add(a, b) => Eval(a, p) + Eval(b, p)
    case Sub(a, b) => Eval(a, p) - Eval(b, p)
    case Min(a, b) => if Eval(a, p) <= Eval(b, p) then Eval(a, p) else Eval(b, p)
    case Max(a, b) => if Eval(a, p) >= Eval(b, p) then Eval(a, p) else Eval(b, p)
  }

  // ---------- the compiler ----------

  function Combine(op: SetOperation, a: Expr, b: Expr): Expr {
    if op == Union then Min(a, b) else Max(a, b)
  }

  function Aggregate(op: SetOperation, trees: seq<Expr>): Option<Expr> {
    if trees == [] then None
    else if |trees| == 1 then Some(trees[0])
    else Some(Combine(op, Aggregate(op, trees[..|trees| - 1]).value, trees[|trees| - 1]))
  }

  // The magnitude is subtracted as it is, not squared.
  function SphereExpr(center: Point, magnitude: real): Expr {
    Sub(Add(Add(Square(Sub(X, Const(center.x))), Square(Sub(Y, Const(center.y)))), Square(Sub(Z, Const(center.z)))),
        Const(magnitude))
  }

  // The expressions of the trees that have one.
  function CompileAll(trees: seq<Tree>): seq<Expr>
    decreases trees
  {
    if trees == [] then []
    else
      var init, last := CompileAll(trees[..|trees| - 1]), Compile(trees[|trees| - 1]);
      if last.Some? then init + [last.value] else init
  }

  function Compile(tree: Tree): Option<Expr>
    decreases tree, 0
  {
    match tree.node
    case Sphere(_, center, magnitude) => Some(SphereExpr(center, magnitude))
    case SetOp(_, operation) => Aggregate(operation, CompileAll(tree.children))
  }

  // A scene's shape: the union of its trees.
  function Shape(forest: seq<Tree>): Option<Expr> {
    Aggregate(Union, CompileAll(forest))
  }

  method AggregateOf(trees: seq<Expr>, combine: (Expr, Expr) -> Expr, ghost op: SetOperation) returns (res: Option<Expr>)
    requires forall a, b :: combine(a, b) == Combine(op, a, b)
    ensures res == Aggregate(op, trees)
  {
    if |trees| == 0 {
      return None;
    }
    if |trees| == 1 {
      return Some(trees[0]);
    }
    var tree := trees[0];
    for i := 1 to |trees|
      invariant Aggregate(op, trees[..i]) == Some(tree)
    {
      tree := combine(tree, trees[i]);
      assert trees[..i + 1][..i] == trees[..i];
    }
    assert trees[..|trees|] == trees;
    return Some(tree);
  }

  method ExprOfTree(tree: Tree) returns (res: Option<Expr>)
    ensures res == Compile(tree)
    decreases tree
  {
    match tree.node
    case Sphere(_, center, magnitude) =>
      res := Some(SphereExpr(center, magnitude));
    case SetOp(_, operation) =>
      var trees := [];
      for i := 0 to |tree.children|
        invariant trees == CompileAll(tree.children[..i])
      {
        assert tree.children[..i + 1][..i] == tree.children[..i];
        var maybeTree := ExprOfTree(tree.children[i]);
        if maybeTree.Some? {
          trees := trees + [maybeTree.value];
        }
      }
      assert tree.children[..|tree.children|] == tree.children;
      if operation == Union {
        res := AggregateOf(trees, (acc, elem) => Min(acc, elem), Union);
      } else {
        res := AggregateOf(trees, (acc, elem) => Max(acc, elem), Intersection);
      }
  }

  /** The shape that is handed to the mesher. */
  method ShapeOf(trees: seq<Tree>) returns (shape: Option<Expr>)
    ensures shape == Shape(trees)
  {
    var forest := [];
    for i := 0 to |trees|
      invariant forest == CompileAll(trees[..i])
    {
      assert trees[..i + 1][..i] == trees[..i];
      var maybeTree := ExprOfTree(trees[i]);
      if maybeTree.Some? {
        forest := forest + [maybeTree.value];
      }
    }
    assert trees[..|trees|] == trees;
    shape := AggregateOf(forest, (acc, elem) => Min(acc, elem), Union);
  }

  // ---------- values of aggregates ----------

  // The value v is the extreme one: least for unions, greatest for intersections.
  predicate Beats(op: SetOperation, v: real, w: real) {
    if op == Union then v <= w else v >= w
  }

  ghost predicate Extreme(op: SetOperation, es: seq<Expr>, p: Point, v: real) {
    && (exists e :: e in es && Eval(e, p) == v)
    && forall e :: e in es ==> Beats(op, v, Eval(e, p))
  }

  lemma CombineValue(op: SetOperation, a: Expr, b: Expr, p: Point)
    ensures var v := Eval(Combine(op, a, b), p);
            (v == Eval(a, p) || v == Eval(b, p)) && Beats(op, v, Eval(a, p)) && Beats(op, v, Eval(b, p))
  {
  }

  lemma {:induction false} AggregateIsExtreme(op: SetOperation, es: seq<Expr>, p: Point)
    requires es != []
    ensures Aggregate(op, es).Some? && Extreme(op, es, p, Eval(Aggregate(op, es).value, p))
    decreases |es|
  {
    if |es| > 1 {
      var n := |es| - 1;
      var init, last := es[..n], es[n];
      assert es == init + [last];
      AggregateIsExtreme(op, init, p);
      CombineValue(op, Aggregate(op, init).value, last, p);
    } else {
      assert es[0] in es;
    }
  }

  lemma {:induction false} CompiledMembers(trees: seq<Tree>, e: Expr)
    ensures e in CompileAll(trees) <==> exists t :: t in trees && Compile(t) == Some(e)
    decreases |trees|
  {
    if trees != [] {
      var n := |trees| - 1;
      var init, last := trees[..n], trees[n];
      assert trees == init + [last];
      CompiledMembers(init, e);
      if e in CompileAll(trees) && e !in CompileAll(init) {
        assert last in trees && Compile(last) == Some(e);
      }
      if t :| t in trees && Compile(t) == Some(e) {
        assert t in init || t == last;
      }
    }
  }

  // ---------- meaning ----------

  function SphereLevel(center: Point, magnitude: real, p: Point): real {
    (p.x - center.x) * (p.x - center.x) + (p.y - center.y) * (p.y - center.y) + (p.z - center.z) * (p.z - center.z) - magnitude
  }

  // A tree denotes a solid when a sphere is left below it; operations without any are dropped.
  predicate Solid(tree: Tree) {
    tree.node.Sphere? || exists i :: 0 <= i < |tree.children| && Solid(tree.children[i])
  }

  // The set a solid tree denotes: balls, and unions and intersections of the solid children.
  predicate Inside(tree: Tree, p: Point) {
    match tree.node
    case Sphere(_, center, magnitude) => SphereLevel(center, magnitude, p) <= 0.0
    case SetOp(_, operation) =>
      if operation == Union then exists i :: 0 <= i < |tree.children| && Solid(tree.children[i]) && Inside(tree.children[i], p)
      else forall i :: 0 <= i < |tree.children| && Solid(tree.children[i]) ==> Inside(tree.children[i], p)
  }

  lemma SphereValue(center: Point, magnitude: real, p: Point)
    ensures Eval(SphereExpr(center, magnitude), p) == SphereLevel(center, magnitude, p)
    ensures SphereLevel(center, magnitude, p) ==
            DistanceSquared(Point(p.x - center.x, p.y - center.y, p.z - center.z)) - magnitude
  {
    var (a, b, c) := (Sub(X, Const(center.x)), Sub(Y, Const(center.y)), Sub(Z, Const(center.z)));
    assert Eval(a, p) == p.x - center.x;
    assert Eval(b, p) == p.y - center.y;
    assert Eval(c, p) == p.z - center.z;
    assert Eval(Add(Square(a), Square(b)), p) == Eval(a, p) * Eval(a, p) + Eval(b, p) * Eval(b, p);
    assert Eval(Add(Add(Square(a), Square(b)), Square(c)), p) ==
           Eval(Add(Square(a), Square(b)), p) + Eval(c, p) * Eval(c, p);
  }

  lemma {:induction false} CompiledSolid(tree: Tree)
    ensures Compile(tree).Some? <==> Solid(tree)
    decreases tree
  {
    if tree.node.SetOp? {
      var es := CompileAll(tree.children);
      if es != [] {
        CompiledMembers(tree.children, es[0]);
        var t :| t in tree.children && Compile(t) == Some(es[0]);
        CompiledSolid(t);
      }
      if i :| 0 <= i < |tree.children| && Solid(tree.children[i]) {
        CompiledSolid(tree.children[i]);
        CompiledMembers(tree.children, Compile(tree.children[i]).value);
      }
    }
  }

  /** Compilation preserves meaning: the expression is at most zero exactly inside the denoted set. */
  lemma {:induction false} CompiledMeaning(tree: Tree, p: Point)
    requires Solid(tree)
    ensures Compile(tree).Some? && (Eval(Compile(tree).value, p) <= 0.0 <==> Inside(tree, p))
    decreases tree
  {
    CompiledSolid(tree);
    match tree.node
    case Sphere(_, center, magnitude) => SphereValue(center, magnitude, p);
    case SetOp(_, operation) =>
      var es := CompileAll(tree.children);
      AggregateIsExtreme(operation, es, p);
      var v := Eval(Compile(tree).value, p);
      forall i | 0 <= i < |tree.children| && Solid(tree.children[i])
        ensures Compile(tree.children[i]).Some?
        ensures Compile(tree.children[i]).value in es
        ensures Eval(Compile(tree.children[i]).value, p) <= 0.0 <==> Inside(tree.children[i], p)
      {
        CompiledMeaning(tree.children[i], p);
        CompiledMembers(tree.children, Compile(tree.children[i]).value);
      }
      var e :| e in es && Eval(e, p) == v;
      CompiledMembers(tree.children, e);
      var t :| t in tree.children && Compile(t) == Some(e);
      CompiledSolid(t);
      var i :| 0 <= i < |tree.children| && tree.children[i] == t;
      assert Solid(tree.children[i]);
  }

  /** The same for the whole scene: its shape is at most zero exactly where some solid tree of the forest contains
      the point. */
  lemma ShapeMeaning(forest: seq<Tree>, p: Point)
    ensures Shape(forest).Some? <==> exists t :: t in forest && Solid(t)
    ensures Shape(forest).Some? ==> (Eval(Shape(forest).value, p) <= 0.0 <==> exists t :: t in forest && Solid(t) && Inside(t, p))
  {
    hide Inside, Solid, Compile;
    var es := CompileAll(forest);
    forall t | t in forest ensures Compile(t).Some? <==> Solid(t) {
      CompiledSolid(t);
    }
    if es == [] {
      if t :| t in forest && Solid(t) {
        CompiledMembers(forest, Compile(t).value);
      }
    } else {
      AggregateIsExtreme(Union, es, p);
      CompiledMembers(forest, es[0]);
      var v := Eval(Shape(forest).value, p);
      var e :| e in es && Eval(e, p) == v;
      CompiledMembers(forest, e);
      var s :| s in forest && Compile(s) == Some(e);
      CompiledMeaning(s, p);
      if t :| t in forest && Solid(t) && Inside(t, p) {
        CompiledMeaning(t, p);
        CompiledMembers(forest, Compile(t).value);
      }
    }
  }

  // ---------- the order of children does not matter ----------

  // Two trees have the same shape as far as the point p can tell.
  predicate SameLevel(t: Tree, u: Tree, p: Point) {
    && (Compile(t).Some? <==> Compile(u).Some?)
    && (Compile(t).Some? ==> Eval(Compile(t).value, p) == Eval(Compile(u).value, p))
  }

  // Every tree of one sequence has one of the same level in the other.
  ghost predicate Covered(ts: seq<Tree>, us: seq<Tree>, p: Point) {
    forall t :: t in ts ==> exists u :: u in us && SameLevel(t, u, p)
  }

  lemma CoveredLevels(ts: seq<Tree>, us: seq<Tree>, p: Point, e: Expr) returns (f: Expr)
    requires Covered(ts, us, p) && e in CompileAll(ts)
    ensures f in CompileAll(us) && Eval(f, p) == Eval(e, p)
  {
    CompiledMembers(ts, e);
    var t :| t in ts && Compile(t) == Some(e);
    var u :| u in us && SameLevel(t, u, p);
    f := Compile(u).value;
    CompiledMembers(us, f);
  }

  lemma CoveredAggregates(op: SetOperation, ts: seq<Tree>, us: seq<Tree>, p: Point)
    requires Covered(ts, us, p) && Covered(us, ts, p)
    ensures var a, b := Aggregate(op, CompileAll(ts)), Aggregate(op, CompileAll(us));
            (a.Some? <==> b.Some?) && (a.Some? ==> Eval(a.value, p) == Eval(b.value, p))
  {
    var es, fs := CompileAll(ts), CompileAll(us);
    if es != [] {
      var f := CoveredLevels(ts, us, p, es[0]);
    }
    if fs != [] {
      var e := CoveredLevels(us, ts, p, fs[0]);
    }
    if es != [] {
      AggregateIsExtreme(op, es, p);
      AggregateIsExtreme(op, fs, p);
      var e :| e in es && Eval(e, p) == Eval(Aggregate(op, es).value, p);
      var f :| f in fs && Eval(f, p) == Eval(Aggregate(op, fs).value, p);
      var f' := CoveredLevels(ts, us, p, e);
      var e' := CoveredLevels(us, ts, p, f);
    }
  }

  lemma SameMembersCover(ts: seq<Tree>, us: seq<Tree>, p: Point)
    requires forall t :: t in multiset(ts) ==> t in multiset(us)
    ensures Covered(ts, us, p)
  {
    forall t | t in ts ensures exists u :: u in us && SameLevel(t, u, p) {
      assert t in multiset(ts);
      assert t in us && SameLevel(t, t, p);
    }
  }

  /** Any permutation of the forest gives the same shape, so the order of the root pointers does not matter. */
  lemma ForestOrderIrrelevant(ts: seq<Tree>, us: seq<Tree>, p: Point)
    requires multiset(ts) == multiset(us)
    ensures (Shape(ts).Some? <==> Shape(us).Some?) &&
            (Shape(ts).Some? ==> Eval(Shape(ts).value, p) == Eval(Shape(us).value, p))
  {
    SameMembersCover(ts, us, p);
    SameMembersCover(us, ts, p);
    CoveredAggregates(Union, ts, us, p);
  }

  // Two lists of positions that undo each other: a permutation of the first n positions and its inverse.
  predicate Inverse(perm: seq<nat>, back: seq<nat>, n: nat) {
    && |perm| == |back| == n
    && forall k :: 0 <= k < n ==> perm[k] < n && back[k] < n && back[perm[k]] == k && perm[back[k]] == k
  }

  // The same tree up to the order of the children of every node, at every depth.
  ghost predicate Rearranged(t: Tree, u: Tree)
    decreases t
  {
    && t.node == u.node
    && |t.children| == |u.children|
    && exists perm, back :: Inverse(perm, back, |t.children|) &&
         forall k :: 0 <= k < |t.children| ==> Rearranged(t.children[k], u.children[perm[k]])
  }

  lemma MatchedCovered(ts: seq<Tree>, us: seq<Tree>, places: seq<nat>, p: Point)
    requires |ts| == |us| == |places|
    requires forall k :: 0 <= k < |ts| ==> places[k] < |us| && SameLevel(ts[k], us[places[k]], p)
    ensures Covered(ts, us, p)
  {
    forall t | t in ts ensures exists u :: u in us && SameLevel(t, u, p) {
      var k :| 0 <= k < |ts| && ts[k] == t;
      assert us[places[k]] in us;
    }
  }

  lemma LevelSymmetric(t: Tree, u: Tree, p: Point)
    requires SameLevel(t, u, p)
    ensures SameLevel(u, t, p)
  {
  }

  lemma SameNodeLevel(t: Tree, u: Tree, p: Point)
    requires t.node == u.node && Covered(t.children, u.children, p) && Covered(u.children, t.children, p)
    ensures SameLevel(t, u, p)
  {
    hide Covered;
    if t.node.SetOp? {
      CoveredAggregates(t.node.operation, t.children, u.children, p);
    }
  }

  /** Any permutation of children, at all depths at once, keeps a tree's value. */
  lemma {:induction false} ChildOrderIrrelevant(t: Tree, u: Tree, p: Point)
    requires Rearranged(t, u)
    ensures SameLevel(t, u, p)
    decreases t
  {
    hide SameLevel, Covered;
    var (cs, ds) := (t.children, u.children);
    var perm, back :| Inverse(perm, back, |cs|) && forall k :: 0 <= k < |cs| ==> Rearranged(cs[k], ds[perm[k]]);
    forall k | 0 <= k < |cs| ensures SameLevel(cs[k], ds[perm[k]], p) {
      ChildOrderIrrelevant(cs[k], ds[perm[k]], p);
    }
    MatchedCovered(cs, ds, perm, p);
    forall k | 0 <= k < |ds| ensures SameLevel(ds[k], cs[back[k]], p) {
      LevelSymmetric(cs[back[k]], ds[perm[back[k]]], p);
    }
    MatchedCovered(ds, cs, back, p);
    SameNodeLevel(t, u, p);
  }

  /** The same for a forest whose trees are permuted and rearranged at once. */
  lemma SceneOrderIrrelevant(ts: seq<Tree>, us: seq<Tree>, perm: seq<nat>, back: seq<nat>, p: Point)
    requires |ts| == |us| && Inverse(perm, back, |ts|)
    requires forall k :: 0 <= k < |ts| ==> Rearranged(ts[k], us[perm[k]])
    ensures (Shape(ts).Some? <==> Shape(us).Some?) &&
            (Shape(ts).Some? ==> Eval(Shape(ts).value, p) == Eval(Shape(us).value, p))
  {
    forall k | 0 <= k < |ts| ensures SameLevel(ts[k], us[perm[k]], p) {
      ChildOrderIrrelevant(ts[k], us[perm[k]], p);
    }
    MatchedCovered(ts, us, perm, p);
    MatchedCovered(us, ts, back, p);
    CoveredAggregates(Union, ts, us, p);
  }
}
