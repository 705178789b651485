// Opening a document: its graph is built from what the database lists.
module Viewmodel {
  import opened Database
  import opened GraphPaths
  import opened LastWriterWins
  import opened Scene
  import opened SceneGraph
  import opened Sequences
  import opened Wrappers

  // An entity of the document whose attributes can be read.
  ghost predicate Readable(t: Tables, document: Id, id: Id, kind: NodeType) {
    && InDocument(t.document, id, document, kind)
    && (if kind == SphereNode then SphereStored(t, id) else HasLive(t.setOperation, id))
  }

  predicate OfKind(node: Node, id: Id, kind: NodeType) {
    node.id == id && KindOf(node) == kind
  }

  // A node's attributes are those the database answers for its identifier.
  ghost predicate ReadAs(t: Tables, node: Node) {
    match node
    case Sphere(id, center, magnitude) => LargestRadius(t.radius, id, magnitude) && FarthestPoint(t.coord, id, center)
    case SetOp(id, operation) => exists row :: LiveTop(t.setOperation, id, row) && row.value == operation
  }

  method ReadNode(db: DatabaseImpl, id: Id, kind: NodeType) returns (res: Option<Node>)
    ensures res.Some? <==> if kind == SphereNode then SphereStored(db.Snapshot(), id) else HasLive(db.setOperation, id)
    ensures res.Some? ==> OfKind(res.value, id, kind) && ReadAs(db.Snapshot(), res.value)
  {
    if kind == SphereNode {
      res := db.SphereOf(id);
    } else {
      res := db.SetOpOf(id);
    }
  }

  // The identifiers and types of the nodes, one entry for each object.
  function Labels(nodes: seq<Ptr>): seq<(Id, NodeType)> {
    if nodes == [] then []
    else
      var last := nodes[|nodes| - 1].node;
      Labels(nodes[..|nodes| - 1]) + [(last.id, KindOf(last))]
  }

  lemma {:induction false} LabelsAre(nodes: seq<Ptr>, id: Id, kind: NodeType)
    ensures (id, kind) in Labels(nodes) <==> exists p :: p in nodes && OfKind(p.node, id, kind)
    decreases |nodes|
  {
    if nodes != [] {
      var n := |nodes| - 1;
      assert nodes == nodes[..n] + [nodes[n]];
      LabelsAre(nodes[..n], id, kind);
    }
  }

  // The stored nodes are the readable entities, each entry read into an object of its own.
  ghost predicate NodesRead(t: Tables, document: Id, entities: seq<(Id, NodeType)>, nodes: seq<Ptr>) {
    && (forall p :: p in nodes ==> ReadAs(t, p.node))
    && (forall id: Id, kind :: multiset(Labels(nodes))[(id, kind)] ==
          if Readable(t, document, id, kind) then multiset(entities)[(id, kind)] else 0)
    && (forall i :: 0 <= i < |nodes| ==> nodes[i].address == i)
  }

  lemma NothingRead(t: Tables, document: Id)
    ensures NodesRead(t, document, [], [])
  {
  }

  lemma OneMoreLabel(nodes: seq<Ptr>, p: Ptr, entity: (Id, NodeType))
    requires OfKind(p.node, entity.0, entity.1)
    ensures Labels(nodes + [p]) == Labels(nodes) + [entity]
  {
    assert (nodes + [p])[..|nodes|] == nodes;
  }

  lemma OneMoreRead(t: Tables, document: Id, entities: seq<(Id, NodeType)>, entity: (Id, NodeType), before: seq<Ptr>,
                    after: seq<Ptr>, maybe: Option<Node>)
    requires NodesRead(t, document, entities, before) && InDocument(t.document, entity.0, document, entity.1)
    requires maybe.Some? <==> Readable(t, document, entity.0, entity.1)
    requires maybe.Some? ==> OfKind(maybe.value, entity.0, entity.1) && ReadAs(t, maybe.value)
    requires after == if maybe.Some? then before + [Ptr(|before|, maybe.value)] else before
    ensures NodesRead(t, document, entities + [entity], after)
  {
    hide Readable, ReadAs, InDocument, OfKind, Labels;
    if maybe.Some? {
      OneMoreLabel(before, Ptr(|before|, maybe.value), entity);
    }
  }

  method ReadNodes(db: DatabaseImpl, document: Id, entities: seq<(Id, NodeType)>) returns (nodes: seq<Ptr>)
    requires forall e :: e in entities ==> InDocument(db.document, e.0, document, e.1)
    ensures NodesRead(db.Snapshot(), document, entities, nodes)
  {
    hide InDocument, SphereStored, HasLive, ReadAs, NodesRead;
    nodes := [];
    NothingRead(db.Snapshot(), document);
    for i := 0 to |entities|
      invariant NodesRead(db.Snapshot(), document, entities[..i], nodes)
    {
      var entity := entities[i];
      ghost var before := nodes;
      assert entities[..i + 1] == entities[..i] + [entity];
      var maybe := ReadNode(db, entity.0, entity.1);
      if maybe.Some? {
        nodes := nodes + [Ptr(|nodes|, maybe.value)];
      }
      OneMoreRead(db.Snapshot(), document, entities[..i], entity, before, nodes, maybe);
    }
    assert entities[..|entities|] == entities;
  }

  lemma ReadIsReadable(t: Tables, document: Id, entities: seq<(Id, NodeType)>, nodes: seq<Ptr>, p: Ptr)
    requires NodesRead(t, document, entities, nodes) && p in nodes
    ensures Readable(t, document, p.node.id, KindOf(p.node))
  {
    hide Readable, ReadAs;
    assert OfKind(p.node, p.node.id, KindOf(p.node));
    LabelsAre(nodes, p.node.id, KindOf(p.node));
    assert (p.node.id, KindOf(p.node)) in multiset(Labels(nodes));
  }

  lemma ReadableIsRead(t: Tables, document: Id, entities: seq<(Id, NodeType)>, nodes: seq<Ptr>, id: Id, kind: NodeType)
    requires NodesRead(t, document, entities, nodes) && Readable(t, document, id, kind) && (id, kind) in entities
    ensures exists p :: p in nodes && OfKind(p.node, id, kind)
  {
    hide Readable, ReadAs;
    assert (id, kind) in multiset(entities);
    assert (id, kind) in multiset(Labels(nodes));
    LabelsAre(nodes, id, kind);
  }

  /** The edges of one node: to every stored node whose identifier the database lists. */
  method EdgesOf(db: DatabaseImpl, nodes: seq<Ptr>, node: Ptr) returns (edges: seq<Edge>)
    requires node in nodes && !Listed(db.edge, (node.node.id, node.node.id)) && Distinct(nodes)
    ensures Distinct(edges)
    ensures forall e :: e in edges <==> e.from == node && e.to in nodes && Listed(db.edge, (node.node.id, e.to.node.id))
  {
    hide Listed;
    edges := [];
    var targets := db.Edges(node.node.id);
    for i := 0 to |targets|
      invariant Distinct(edges)
      invariant forall e :: e in edges <==> e.from == node && e.to in nodes && e.to.node.id in targets[..i]
    {
      ghost var done := edges;
      assert targets[..i + 1] == targets[..i] + [targets[i]];
      for j := 0 to |nodes|
        invariant Distinct(edges)
        invariant forall e :: e in edges <==> e in done || (e.from == node && e.to in nodes[..j] && e.to.node.id == targets[i])
      {
        assert nodes[..j + 1] == nodes[..j] + [nodes[j]];
        assert targets[i] !in targets[..i] && nodes[j] !in nodes[..j];
        if nodes[j].node.id == targets[i] {
          assert targets[i] in targets && node.node.id != nodes[j].node.id;
          edges := edges + [Edge(node, nodes[j])];
        }
      }
      assert nodes[..|nodes|] == nodes;
    }
    assert targets[..|targets|] == targets;
  }

  lemma TogetherDistinct(edges: seq<Edge>, more: seq<Edge>, p: Ptr)
    requires Distinct(edges) && Distinct(more)
    requires (forall e :: e in edges ==> e.from != p) && (forall e :: e in more ==> e.from == p)
    ensures Distinct(edges + more)
  {
    forall i, j | 0 <= i < |edges| && 0 <= j < |more| ensures edges[i] != more[j] {
      assert edges[i] in edges && more[j] in more;
    }
  }

  /** Opening a document yields a closed graph: its nodes are the readable entities, one object for each live row of
      an entity, with the attributes the database answers; its edges are exactly the listed pairs of those nodes. */
  method Open(db: DatabaseImpl, document: Id) returns (g: Graph)
    requires forall id: Id, kind :: Readable(db.Snapshot(), document, id, kind) ==> !Listed(db.edge, (id, id))
    ensures Closed(g.nodes, g.edges) && Distinct(g.nodes) && Distinct(g.edges)
    ensures forall e :: e in g.edges <==>
              e.from in g.nodes && e.to in g.nodes && Listed(db.edge, (e.from.node.id, e.to.node.id))
    ensures forall p :: p in g.nodes ==>
              Readable(db.Snapshot(), document, p.node.id, KindOf(p.node)) && ReadAs(db.Snapshot(), p.node)
    ensures forall id: Id, kind :: multiset(Labels(g.nodes))[(id, kind)] ==
              if Readable(db.Snapshot(), document, id, kind) then |LiveRows(db.document, id, document, kind)| else 0
    ensures forall id: Id, kind :: Readable(db.Snapshot(), document, id, kind) ==>
              exists p :: p in g.nodes && OfKind(p.node, id, kind)
  {
    hide Listed, InDocument, SphereStored, HasLive, ReadAs, LiveRows, Labels;
    var entities := db.Entities(document);
    var nodes := ReadNodes(db, document, entities);
    forall p | p in nodes ensures Readable(db.Snapshot(), document, p.node.id, KindOf(p.node)) {
      ReadIsReadable(db.Snapshot(), document, entities, nodes, p);
    }
    var edges: seq<Edge> := [];
    for i := 0 to |nodes|
      invariant Distinct(edges)
      invariant forall e :: e in edges <==>
                  e.from in nodes[..i] && e.to in nodes && Listed(db.edge, (e.from.node.id, e.to.node.id))
    {
      assert nodes[..i + 1] == nodes[..i] + [nodes[i]];
      assert nodes[i] !in nodes[..i];
      var more := EdgesOf(db, nodes, nodes[i]);
      TogetherDistinct(edges, more, nodes[i]);
      edges := edges + more;
    }
    assert nodes[..|nodes|] == nodes;
    g := new Graph(edges, nodes);
    forall id: Id, kind | Readable(db.Snapshot(), document, id, kind)
      ensures exists p :: p in nodes && OfKind(p.node, id, kind)
    {
      ReadableIsRead(db.Snapshot(), document, entities, nodes, id, kind);
    }
  }
}
