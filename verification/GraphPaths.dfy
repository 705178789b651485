// Edges of the scene graph, paths along them, and acyclicity.
module GraphPaths {
  import opened Scene

  // A shared pointer: two pointers are the same exactly when they have the same address and node.
  datatype Ptr = Ptr(address: nat, node: Node)

  datatype Edge = Edge(from: Ptr, to: Ptr)

  // A path is a sequence of edge positions; each edge starts at a node with the identifier the last one ended at.
  predicate IsPath(edges: seq<Edge>, a: Id, path: seq<nat>, b: Id)
    decreases |path|
  {
    if path == [] then a == b
    else path[0] < |edges| && edges[path[0]].from.node.id == a && IsPath(edges, edges[path[0]].to.node.id, path[1..], b)
  }

  ghost predicate Reaches(edges: seq<Edge>, a: Id, b: Id) {
    exists path :: IsPath(edges, a, path, b)
  }

  // By at least one edge.
  ghost predicate Leads(edges: seq<Edge>, a: Id, b: Id) {
    exists path :: path != [] && IsPath(edges, a, path, b)
  }

  ghost predicate Acyclic(edges: seq<Edge>) {
    forall a :: !Leads(edges, a, a)
  }

  lemma {:induction false} PathConcat(edges: seq<Edge>, a: Id, p: seq<nat>, b: Id, q: seq<nat>, c: Id)
    requires IsPath(edges, a, p, b) && IsPath(edges, b, q, c)
    ensures IsPath(edges, a, p + q, c)
    decreases |p|
  {
    if p == [] {
      assert p + q == q;
    } else {
      assert (p + q)[1..] == p[1..] + q;
      PathConcat(edges, edges[p[0]].to.node.id, p[1..], b, q, c);
    }
  }

  lemma EdgePath(edges: seq<Edge>, i: nat)
    requires i < |edges|
    ensures IsPath(edges, edges[i].from.node.id, [i], edges[i].to.node.id)
  {
    assert [i][1..] == [];
  }

  lemma EdgeLeads(edges: seq<Edge>, e: Edge)
    requires e in edges
    ensures Leads(edges, e.from.node.id, e.to.node.id)
  {
    var i :| 0 <= i < |edges| && edges[i] == e;
    EdgePath(edges, i);
  }

  lemma LeadsConcat(edges: seq<Edge>, a: Id, b: Id, c: Id)
    requires Reaches(edges, a, b) && Leads(edges, b, c)
    ensures Leads(edges, a, c)
  {
    var p :| IsPath(edges, a, p, b);
    var q :| q != [] && IsPath(edges, b, q, c);
    PathConcat(edges, a, p, b, q, c);
    assert p + q != [];
  }

  lemma ReachesConcat(edges: seq<Edge>, a: Id, b: Id, c: Id)
    requires Reaches(edges, a, b) && Reaches(edges, b, c)
    ensures Reaches(edges, a, c)
    ensures Leads(edges, a, b) ==> Leads(edges, a, c)
  {
    var p :| IsPath(edges, a, p, b);
    var q :| IsPath(edges, b, q, c);
    PathConcat(edges, a, p, b, q, c);
    if r :| r != [] && IsPath(edges, a, r, b) {
      PathConcat(edges, a, r, b, q, c);
      assert r + q != [];
    }
  }

  // ---------- fewer edges, fewer paths ----------

  lemma {:induction false} PathInMore(fewer: seq<Edge>, more: seq<Edge>, a: Id, path: seq<nat>, b: Id) returns (other: seq<nat>)
    requires IsPath(fewer, a, path, b) && forall e :: e in fewer ==> e in more
    ensures |other| == |path| && IsPath(more, a, other, b)
    decreases |path|
  {
    other := [];
    if path != [] {
      var e := fewer[path[0]];
      var rest := PathInMore(fewer, more, e.to.node.id, path[1..], b);
      assert e in fewer && e in more;
      var i :| 0 <= i < |more| && more[i] == e;
      other := [i] + rest;
      assert other[1..] == rest;
    }
  }

  /** Taking edges away keeps a graph acyclic. */
  lemma FewerEdgesAcyclic(fewer: seq<Edge>, more: seq<Edge>)
    requires Acyclic(more) && forall e :: e in fewer ==> e in more
    ensures Acyclic(fewer)
  {
    forall a ensures !Leads(fewer, a, a) {
      if path :| path != [] && IsPath(fewer, a, path, a) {
        var other := PathInMore(fewer, more, a, path, a);
        assert Leads(more, a, a);
      }
    }
  }

  // ---------- one more edge ----------

  // A path in the larger graph either avoids the new edge or passes its source first and its target last.
  lemma {:induction false} PathWithNewEdge(edges: seq<Edge>, e: Edge, a: Id, path: seq<nat>, b: Id)
    requires IsPath(edges + [e], a, path, b)
    ensures Reaches(edges, a, b) || (Reaches(edges, a, e.from.node.id) && Reaches(edges, e.to.node.id, b))
    decreases |path|
  {
    if path == [] {
      assert IsPath(edges, a, [], b);
    } else {
      var step := (edges + [e])[path[0]];
      var x := step.to.node.id;
      PathWithNewEdge(edges, e, x, path[1..], b);
      if path[0] < |edges| {
        EdgePath(edges, path[0]);
        assert Reaches(edges, a, x);
        if Reaches(edges, x, b) {
          ReachesConcat(edges, a, x, b);
        } else {
          ReachesConcat(edges, a, x, e.from.node.id);
        }
      } else {
        assert IsPath(edges, a, [], a);
      }
    }
  }

  lemma NewCycle(edges: seq<Edge>, e: Edge, a: Id)
    requires Leads(edges + [e], a, a)
    ensures Leads(edges, a, a) || Reaches(edges, e.to.node.id, e.from.node.id)
  {
    var path :| path != [] && IsPath(edges + [e], a, path, a);
    var x := (edges + [e])[path[0]].to.node.id;
    PathWithNewEdge(edges, e, x, path[1..], a);
    if path[0] < |edges| {
      EdgePath(edges, path[0]);
      assert Leads(edges, a, x) && Reaches(edges, a, x);
      if Reaches(edges, x, a) {
        ReachesConcat(edges, a, x, a);
      } else {
        ReachesConcat(edges, a, x, e.from.node.id);
        ReachesConcat(edges, e.to.node.id, a, e.from.node.id);
      }
    }
  }

  /** A new edge keeps the graph acyclic exactly when its source cannot be reached from its target. */
  lemma ConnectAcyclicIff(edges: seq<Edge>, e: Edge)
    requires Acyclic(edges)
    ensures Acyclic(edges + [e]) <==> !Reaches(edges, e.to.node.id, e.from.node.id)
  {
    var more := edges + [e];
    if path :| IsPath(edges, e.to.node.id, path, e.from.node.id) {
      var other := PathInMore(edges, more, e.to.node.id, path, e.from.node.id);
      EdgePath(more, |edges|);
      PathConcat(more, e.from.node.id, [|edges|], e.to.node.id, other, e.from.node.id);
      assert [|edges|] + other != [];
      assert Leads(more, e.from.node.id, e.from.node.id);
    } else {
      forall a ensures !Leads(more, a, a) {
        if Leads(more, a, a) {
          NewCycle(edges, e, a);
        }
      }
    }
  }

  // ---------- a measure that every edge decreases ----------

  ghost function Descendants(edges: seq<Edge>, a: Id): set<Id> {
    set e | e in edges && Leads(edges, a, e.to.node.id) :: e.to.node.id
  }

  ghost function Ancestors(edges: seq<Edge>, a: Id): set<Id> {
    set e | e in edges && Leads(edges, e.from.node.id, a) :: e.from.node.id
  }

  lemma DescendantsDecrease(edges: seq<Edge>, e: Edge)
    requires Acyclic(edges) && e in edges
    ensures Descendants(edges, e.to.node.id) < Descendants(edges, e.from.node.id)
  {
    var a, b := e.from.node.id, e.to.node.id;
    EdgeLeads(edges, e);
    assert Reaches(edges, a, b);
    forall c | c in Descendants(edges, b) ensures c in Descendants(edges, a) {
      LeadsConcat(edges, a, b, c);
    }
    assert b in Descendants(edges, a);
    assert b !in Descendants(edges, b);
  }

  lemma AncestorsDecrease(edges: seq<Edge>, e: Edge)
    requires Acyclic(edges) && e in edges
    ensures Ancestors(edges, e.from.node.id) < Ancestors(edges, e.to.node.id)
  {
    var a, b := e.from.node.id, e.to.node.id;
    EdgeLeads(edges, e);
    forall c | c in Ancestors(edges, a) ensures c in Ancestors(edges, b) {
      assert Reaches(edges, c, a);
      LeadsConcat(edges, c, a, b);
    }
    assert a in Ancestors(edges, b);
    assert a !in Ancestors(edges, a);
  }
}
