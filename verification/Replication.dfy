// Replicas that apply local actions to their own database and tell each other about them.
module Replication {
  import opened Database
  import opened LastWriterWins
  import opened Scene
  import opened Wrappers

  datatype Attribute =
    | CoordAttribute(point: Point)
    | RadiusAttribute(magnitude: real)
    | TypeAttribute(operation: SetOperation)
    | NameAttribute(name: string)

  // The calls an interactor takes; removal of nodes is not part of this model.
  datatype Action =
    | Create(node: Node, document: Id, time: int)
    | Connect(from: Id, to: Id, time: int)
    | Upsert(entity: Id, attribute: Attribute, time: int)
    | Disconnect(from: Id, to: Id, time: int)

  datatype Change = Asserted | Retracted

  // Messages that retract a node are not part of this model.
  datatype Message =
    | CreateNode(document: Id, node: Node, time: int)
    | ConnectDisconnect(from: Id, to: Id, change: Change, time: int)
    | Update(entity: Id, attribute: Attribute, time: int)
    | Confirm(time: int)

  // ---------- the rows an action writes, at most one in each table ----------

  function EdgeRows(a: Action): seq<Row<(Id, Id), ()>> {
    match a
    case Connect(from, to, time) => [Row((from, to), time, false, ())]
    case Disconnect(from, to, time) => [Row((from, to), time, true, ())]
    case _ => []
  }

  function DocumentRows(a: Action): seq<Row<(Id, Id), NodeType>> {
    match a
    case Create(node, document, time) =>
      [Row((node.id, document), time, false, KindOf(node))]
    case _ => []
  }

  function RadiusRows(a: Action): Attributes<real> {
    match a
    case Create(Sphere(id, _, magnitude), _, time) => [Row(id, time, false, magnitude)]
    case Upsert(entity, RadiusAttribute(magnitude), time) => [Row(entity, time, false, magnitude)]
    case _ => []
  }

  function CoordRows(a: Action): Attributes<Point> {
    match a
    case Create(Sphere(id, center, _), _, time) => [Row(id, time, false, center)]
    case Upsert(entity, CoordAttribute(point), time) => [Row(entity, time, false, point)]
    case _ => []
  }

  function TypeRows(a: Action): Attributes<SetOperation> {
    match a
    case Create(SetOp(id, operation), _, time) => [Row(id, time, false, operation)]
    case Upsert(entity, TypeAttribute(operation), time) => [Row(entity, time, false, operation)]
    case _ => []
  }

  function NameRows(a: Action): Attributes<string> {
    match a
    case Upsert(entity, NameAttribute(name), time) => [Row(entity, time, false, name)]
    case _ => []
  }

  function WriteAll<K(==), V>(rule: Rule, table: seq<Row<K, V>>, rows: seq<Row<K, V>>): seq<Row<K, V>> {
    if rows == [] then table else Write(rule, WriteAll(rule, table, rows[..|rows| - 1]), rows[|rows| - 1])
  }

  function Applied(t: Tables, a: Action): Tables {
    Tables(WriteAll(Collect, t.coord, CoordRows(a)),
           WriteAll(KeepAll, t.radius, RadiusRows(a)),
           WriteAll(Collect, t.setOperation, TypeRows(a)),
           WriteAll(Collect, t.name, NameRows(a)),
           WriteAll(Collect, t.edge, EdgeRows(a)),
           WriteAll(CollectTombstones, t.document, DocumentRows(a)))
  }

  // ---------- what is sent and how it is processed ----------

  // A local action's message: names are never sent, and a disconnection is sent as an assertion.
  function Sent(a: Action): seq<Message> {
    match a
    case Create(node, document, time) => [CreateNode(document, node, time)]
    case Connect(from, to, time) => [ConnectDisconnect(from, to, Asserted, time)]
    case Upsert(_, NameAttribute(_), _) => []
    case Upsert(entity, attribute, time) => [Update(entity, attribute, time)]
    case Disconnect(from, to, time) => [ConnectDisconnect(from, to, Asserted, time)]
  }

  // The call that processing a message makes; a confirmation makes none.
  function Processed(m: Message): seq<Action> {
    match m
    case CreateNode(document, node, time) => [Create(node, document, time)]
    case ConnectDisconnect(from, to, Asserted, time) => [Connect(from, to, time)]
    case ConnectDisconnect(from, to, Retracted, time) => [Disconnect(from, to, time)]
    case Update(entity, attribute, time) => [Upsert(entity, attribute, time)]
    case Confirm(_) => []
  }

  // ---------- one replica as it runs ----------

  lemma OneRow<K, V>(rule: Rule, table: seq<Row<K, V>>, row: Row<K, V>)
    ensures WriteAll(rule, table, [row]) == Write(rule, table, row)
    ensures WriteAll(rule, table, []) == table
  {
    assert [row][..0] == [];
  }

  lemma {:induction false} NothingRemoved<K, V>(table: seq<Row<K, V>>, op: Row<K, V>)
    ensures Remaining(KeepAll, table, op) == table
    decreases |table|
  {
    if table != [] {
      NothingRemoved(table[..|table| - 1], op);
    }
  }

  lemma {:induction false} NothingCollected<K, V>(table: seq<Row<K, V>>, op: Row<K, V>)
    ensures Write(KeepAll, table, op) == table + [op]
  {
    NothingRemoved(table, op);
  }

  // ---------- reading what was written ----------

  // Every live row of the key is older.
  ghost predicate LiveOlder<K, V>(rows: seq<Row<K, V>>, key: K, time: int) {
    forall row :: row in rows && Live(row, key) ==> row.time < time
  }

  // A live write can be read; when it is newer than every live row of its key, it alone is read.
  lemma NewestIsRead<K(!new), V(!new)>(rule: Rule, table: seq<Row<K, V>>, key: K, time: int, value: V)
    ensures var op := Row(key, time, false, value);
            HasLive(Write(rule, table, op), key) &&
            (LiveOlder(table, key, time) ==> forall row :: LiveTop(Write(rule, table, op), key, row) <==> row == op)
  {
    var op := Row(key, time, false, value);
    var after := Write(rule, table, op);
    assert op in after && Live(op, key);
    forall row ensures row in after <==> row == op || (row in table && !Dropped(rule, row, op)) {
      RemainingRows(rule, table, op, row);
    }
  }

  lemma EntityWritten(table: seq<Row<(Id, Id), NodeType>>, op: Row<(Id, Id), NodeType>)
    requires !op.deleted
    ensures InSomeDocument(Write(CollectTombstones, table, op), op.key.0)
  {
    assert op in Write(CollectTombstones, table, op);
  }

  lemma OnlyRadius(rows: Attributes<real>, entity: Id, op: Row<Id, real>)
    ensures (forall row :: LiveTop(rows, entity, row) <==> row == op) ==>
              forall m :: LargestRadius(rows, entity, m) <==> m == op.value
  {
  }

  lemma OnlyPoint(rows: Attributes<Point>, entity: Id, op: Row<Id, Point>)
    ensures (forall row :: LiveTop(rows, entity, row) <==> row == op) ==>
              forall p :: FarthestPoint(rows, entity, p) <==> p == op.value
  {
    hide DistanceSquared;
  }

  class Replica {
    const db: DatabaseImpl
    var outbox: seq<Message>

    constructor ()
      ensures fresh(db) && outbox == []
      ensures db.Snapshot() == Tables([], [], [], [], [], [])
    {
      db := new DatabaseImpl();
      outbox := [];
    }

    method DbCreate(node: Node, document: Id, time: int)
      modifies db
      ensures db.Snapshot() == Applied(old(db.Snapshot()), Create(node, document, time))
      ensures node.Sphere? ==> db.Snapshot() == old(db.Snapshot()).(
                document := Write(CollectTombstones, old(db.document), Row((node.id, document), time, false, SphereNode)),
                radius := old(db.radius) + [Row(node.id, time, false, node.magnitude)],
                coord := Write(Collect, old(db.coord), Row(node.id, time, false, node.center)))
      ensures node.SetOp? ==> db.Snapshot() == old(db.Snapshot()).(
                document := Write(CollectTombstones, old(db.document), Row((node.id, document), time, false, SetOperationNode)),
                setOperation := Write(Collect, old(db.setOperation), Row(node.id, time, false, node.operation)))
      ensures node.Sphere? ==> SphereStored(db.Snapshot(), node.id)
      ensures node.Sphere? && LiveOlder(old(db.radius), node.id, time) ==>
                forall m :: LargestRadius(db.radius, node.id, m) <==> m == node.magnitude
      ensures node.Sphere? && LiveOlder(old(db.coord), node.id, time) ==>
                forall p :: FarthestPoint(db.coord, node.id, p) <==> p == node.center
      ensures node.SetOp? ==> HasLive(db.setOperation, node.id)
      ensures node.SetOp? && LiveOlder(old(db.setOperation), node.id, time) ==>
                forall row :: LiveTop(db.setOperation, node.id, row) ==> row.value == node.operation
    {
      hide Write, LiveOlder, HasLive, LiveTop, LargestRadius, FarthestPoint;
      ghost var t := db.Snapshot();
      match node
      case Sphere(id, center, magnitude) =>
        OneRow(CollectTombstones, t.document, Row((id, document), time, false, SphereNode));
        OneRow(KeepAll, t.radius, Row(id, time, false, magnitude));
        NothingCollected(t.radius, Row(id, time, false, magnitude));
        OneRow(Collect, t.coord, Row(id, time, false, center));
        EntityWritten(t.document, Row((id, document), time, false, SphereNode));
        NewestIsRead(KeepAll, t.radius, id, time, magnitude);
        NewestIsRead(Collect, t.coord, id, time, center);
        OnlyRadius(Write(KeepAll, t.radius, Row(id, time, false, magnitude)), id, Row(id, time, false, magnitude));
        OnlyPoint(Write(Collect, t.coord, Row(id, time, false, center)), id, Row(id, time, false, center));
        db.CreateI(id, SphereNode, document, time, false);
        db.UpsertRadiusI(id, magnitude, time, false);
        db.UpsertCoordI(id, center, time, false);
      case SetOp(id, operation) =>
        OneRow(CollectTombstones, t.document, Row((id, document), time, false, SetOperationNode));
        OneRow(Collect, t.setOperation, Row(id, time, false, operation));
        NewestIsRead(Collect, t.setOperation, id, time, operation);
        db.CreateI(id, SetOperationNode, document, time, false);
        db.UpsertSetOperationI(id, operation, time, false);
    }

    method DbConnect(from: Id, to: Id, time: int, deleted: bool)
      modifies db
      ensures db.Snapshot() ==
              Applied(old(db.Snapshot()), if deleted then Disconnect(from, to, time) else Connect(from, to, time))
      ensures db.Snapshot() ==
              old(db.Snapshot()).(edge := Write(Collect, old(db.edge), Row((from, to), time, deleted, ())))
    {
      OneRow(Collect, db.edge, Row((from, to), time, deleted, ()));
      db.ConnectI(from, to, time, deleted);
    }

    method DbUpsert(entity: Id, attribute: Attribute, time: int)
      modifies db
      ensures db.Snapshot() == Applied(old(db.Snapshot()), Upsert(entity, attribute, time))
      ensures db.Snapshot() ==
              match attribute
              case CoordAttribute(point) =>
                old(db.Snapshot()).(coord := Write(Collect, old(db.coord), Row(entity, time, false, point)))
              case RadiusAttribute(magnitude) =>
                old(db.Snapshot()).(radius := old(db.radius) + [Row(entity, time, false, magnitude)])
              case TypeAttribute(operation) =>
                old(db.Snapshot()).(setOperation := Write(Collect, old(db.setOperation), Row(entity, time, false, operation)))
              case NameAttribute(name) =>
                old(db.Snapshot()).(name := Write(Collect, old(db.name), Row(entity, time, false, name)))
    {
      hide Write;
      match attribute
      case CoordAttribute(point) =>
        OneRow(Collect, db.coord, Row(entity, time, false, point));
        db.UpsertCoordI(entity, point, time, false);
      case RadiusAttribute(magnitude) =>
        OneRow(KeepAll, db.radius, Row(entity, time, false, magnitude));
        NothingCollected(db.radius, Row(entity, time, false, magnitude));
        db.UpsertRadiusI(entity, magnitude, time, false);
      case TypeAttribute(operation) =>
        OneRow(Collect, db.setOperation, Row(entity, time, false, operation));
        db.UpsertSetOperationI(entity, operation, time, false);
      case NameAttribute(name) =>
        OneRow(Collect, db.name, Row(entity, time, false, name));
        db.UpsertNameI(entity, name, time, false);
    }

    method Apply(a: Action)
      modifies db
      ensures db.Snapshot() == Applied(old(db.Snapshot()), a)
      ensures a.Connect? || a.Disconnect? ==>
                db.edge == Write(Collect, old(db.edge), Row((a.from, a.to), a.time, a.Disconnect?, ())) &&
                db.Snapshot() == old(db.Snapshot()).(edge := db.edge)
    {
      match a
      case Create(node, document, time) => DbCreate(node, document, time);
      case Connect(from, to, time) => DbConnect(from, to, time, false);
      case Upsert(entity, attribute, time) => DbUpsert(entity, attribute, time);
      case Disconnect(from, to, time) => DbConnect(from, to, time, true);
    }

    method Send(m: Message)
      modifies this`outbox
      ensures outbox == old(outbox) + [m]
    {
      outbox := outbox + [m];
    }

    /** A local action: applied to the database, then sent. */
    method Perform(a: Action)
      modifies this, db
      ensures db.Snapshot() == Applied(old(db.Snapshot()), a)
      ensures outbox == old(outbox) + Sent(a)
      ensures outbox == old(outbox) +
              match a
              case Create(node, document, time) => [CreateNode(document, node, time)]
              case Connect(from, to, time) => [ConnectDisconnect(from, to, Asserted, time)]
              case Disconnect(from, to, time) => [ConnectDisconnect(from, to, Asserted, time)]
              case Upsert(entity, attribute, time) => if attribute.NameAttribute? then [] else [Update(entity, attribute, time)]
    {
      Apply(a);
      match a
      case Create(node, document, time) => Send(CreateNode(document, node, time));
      case Connect(from, to, time) => Send(ConnectDisconnect(from, to, Asserted, time));
      case Upsert(entity, attribute, time) =>
        if !attribute.NameAttribute? {
          Send(Update(entity, attribute, time));
        }
      case Disconnect(from, to, time) => Send(ConnectDisconnect(from, to, Asserted, time));
    }

    /** A message from another replica: dispatched to the interactor, and not sent on. */
    method Receive(m: Message)
      modifies db
      ensures db.Snapshot() ==
              if Processed(m) == [] then old(db.Snapshot()) else Applied(old(db.Snapshot()), Processed(m)[0])
      ensures db.Snapshot() ==
              match m
              case CreateNode(document, node, time) => Applied(old(db.Snapshot()), Create(node, document, time))
              case ConnectDisconnect(from, to, change, time) =>
                old(db.Snapshot()).(edge := Write(Collect, old(db.edge), Row((from, to), time, change == Retracted, ())))
              case Update(entity, attribute, time) => Applied(old(db.Snapshot()), Upsert(entity, attribute, time))
              case Confirm(_) => old(db.Snapshot())
    {
      match m
      case ConnectDisconnect(from, to, change, time) =>
        match change {
          case Asserted => Apply(Connect(from, to, time));
          case Retracted => Apply(Disconnect(from, to, time));
        }
      case Update(entity, attribute, time) => Apply(Upsert(entity, attribute, time));
      case CreateNode(document, node, time) => Apply(Create(node, document, time));
      case Confirm(_) =>
    }
  }
}
