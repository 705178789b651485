// The entities that the store, the wire and the scene graph share.
module Scene {
  // Identifiers are opaque; only their equality matters.
  type Id = nat

  datatype Point = Point(x: real, y: real, z: real)

  datatype SetOperation = Union | Intersection

  datatype NodeType = SphereNode | SetOperationNode

  datatype Node =
    | Sphere(id: Id, center: Point, magnitude: real)
    | SetOp(id: Id, operation: SetOperation)

  function KindOf(node: Node): NodeType {
    if node.Sphere? then SphereNode else SetOperationNode
  }

  // The square of the distance from the origin orders points as the distance does.
  function DistanceSquared(p: Point): real {
    p.x * p.x + p.y * p.y + p.z * p.z
  }

  // Along each axis it is the square of the coordinate, and the axes add up.
  lemma Pythagoras(p: Point)
    ensures DistanceSquared(Point(p.x, 0.0, 0.0)) == p.x * p.x
    ensures DistanceSquared(Point(0.0, p.y, 0.0)) == p.y * p.y
    ensures DistanceSquared(Point(0.0, 0.0, p.z)) == p.z * p.z
    ensures DistanceSquared(p) == DistanceSquared(Point(p.x, 0.0, 0.0)) + DistanceSquared(Point(0.0, p.y, 0.0)) +
                                  DistanceSquared(Point(0.0, 0.0, p.z))
  {
  }
}
