// The database: six tables of timestamped rows, written by transactions and read by queries.
module Database {
  import opened LastWriterWins
  import opened Scene
  import opened Sequences
  import opened Wrappers

  type Attributes<V> = seq<Row<Id, V>>

  datatype Tables = Tables(
    coord: Attributes<Point>,
    radius: Attributes<real>,
    setOperation: Attributes<SetOperation>,
    name: Attributes<string>,
    edge: seq<Row<(Id, Id), ()>>,
    document: seq<Row<(Id, Id), NodeType>>)

  // ---------- selections ----------

  // Greatest timestamp of a live row of the key.
  function MaxLiveTime<K(==), V>(rows: seq<Row<K, V>>, key: K): Option<int> {
    if rows == [] then None
    else
      var last, init := rows[|rows| - 1], MaxLiveTime(rows[..|rows| - 1], key);
      if !Live(last, key) || (init.Some? && init.value >= last.time) then init else Some(last.time)
  }

  function LiveAt<K(==), V>(rows: seq<Row<K, V>>, key: K, time: Option<int>): seq<Row<K, V>> {
    if rows == [] then []
    else
      var last, init := rows[|rows| - 1], LiveAt(rows[..|rows| - 1], key, time);
      if Live(last, key) && time == Some(last.time) then init + [last] else init
  }

  // The live rows of the key at its greatest live timestamp.
  function LatestLive<K(==), V>(rows: seq<Row<K, V>>, key: K): seq<Row<K, V>> {
    LiveAt(rows, key, MaxLiveTime(rows, key))
  }

  function MaxTime<K(==), V>(rows: seq<Row<K, V>>, key: K): Option<int> {
    if rows == [] then None
    else
      var last, init := rows[|rows| - 1], MaxTime(rows[..|rows| - 1], key);
      if last.key != key || (init.Some? && init.value >= last.time) then init else Some(last.time)
  }

  function RowsAt<K(==), V>(rows: seq<Row<K, V>>, key: K, time: int): seq<Row<K, V>> {
    if rows == [] then []
    else
      var last, init := rows[|rows| - 1], RowsAt(rows[..|rows| - 1], key, time);
      if last.key == key && last.time == time then init + [last] else init
  }

  // The targets of an entity's edge rows, one for each group.
  function Targets(rows: seq<Row<(Id, Id), ()>>, from: Id): seq<Id> {
    if rows == [] then []
    else
      var last, init := rows[|rows| - 1], Targets(rows[..|rows| - 1], from);
      if last.key.0 == from && last.key.1 !in init then init + [last.key.1] else init
  }

  // The documents of live rows, one for each group.
  function LiveDocuments(rows: seq<Row<(Id, Id), NodeType>>): seq<Id> {
    if rows == [] then []
    else
      var last, init := rows[|rows| - 1], LiveDocuments(rows[..|rows| - 1]);
      if !last.deleted && last.key.1 !in init then init + [last.key.1] else init
  }

  lemma {:induction false} MaxLiveTimeBounds<K, V>(rows: seq<Row<K, V>>, key: K, row: Row<K, V>)
    requires row in rows && Live(row, key)
    ensures var time := MaxLiveTime(rows, key); time.Some? && row.time <= time.value
    decreases |rows|
  {
    var n := |rows| - 1;
    assert rows == rows[..n] + [rows[n]];
    if row in rows[..n] {
      MaxLiveTimeBounds(rows[..n], key, row);
    }
  }

  lemma {:induction false} MaxLiveTimeReached<K, V>(rows: seq<Row<K, V>>, key: K) returns (row: Row<K, V>)
    requires MaxLiveTime(rows, key).Some?
    ensures row in rows && Live(row, key) && MaxLiveTime(rows, key) == Some(row.time)
    decreases |rows|
  {
    var n := |rows| - 1;
    var init := MaxLiveTime(rows[..n], key);
    if !Live(rows[n], key) || (init.Some? && init.value >= rows[n].time) {
      row := MaxLiveTimeReached(rows[..n], key);
    } else {
      row := rows[n];
    }
  }

  lemma {:induction false} LiveAtRows<K, V>(rows: seq<Row<K, V>>, key: K, time: Option<int>, row: Row<K, V>)
    ensures row in LiveAt(rows, key, time) <==> row in rows && Live(row, key) && time == Some(row.time)
    decreases |rows|
  {
    if rows != [] {
      var n := |rows| - 1;
      assert rows == rows[..n] + [rows[n]];
      LiveAtRows(rows[..n], key, time, row);
    }
  }

  lemma LatestLiveIsTop<K, V>(rows: seq<Row<K, V>>, key: K, row: Row<K, V>)
    ensures row in LatestLive(rows, key) <==> LiveTop(rows, key, row)
  {
    LiveAtRows(rows, key, MaxLiveTime(rows, key), row);
    if row in LatestLive(rows, key) {
      forall other | other in rows && Live(other, key) ensures other.time <= row.time {
        MaxLiveTimeBounds(rows, key, other);
      }
    }
    if LiveTop(rows, key, row) {
      MaxLiveTimeBounds(rows, key, row);
      var top := MaxLiveTimeReached(rows, key);
    }
  }

  lemma LatestLiveExists<K, V>(rows: seq<Row<K, V>>, key: K)
    ensures LatestLive(rows, key) != [] <==> HasLive(rows, key)
  {
    if HasLive(rows, key) {
      var top := NewestOfLive(rows, key);
      LatestLiveIsTop(rows, key, top);
    }
    if LatestLive(rows, key) != [] {
      LatestLiveIsTop(rows, key, LatestLive(rows, key)[0]);
    }
  }

  lemma {:induction false} MaxTimeIsNewest<K, V>(rows: seq<Row<K, V>>, key: K, time: int)
    ensures MaxTime(rows, key) == Some(time) <==>
            Newest(rows, key, time) && exists row :: row in rows && row.key == key && row.time == time
    ensures MaxTime(rows, key).None? <==> forall row :: row in rows ==> row.key != key
    decreases |rows|
  {
    if rows != [] {
      var n := |rows| - 1;
      var init, last := rows[..n], rows[n];
      assert rows == init + [last];
      MaxTimeIsNewest(init, key, time);
      if MaxTime(init, key).Some? {
        MaxTimeIsNewest(init, key, MaxTime(init, key).value);
      }
    }
  }

  lemma {:induction false} RowsAtRows<K, V>(rows: seq<Row<K, V>>, key: K, time: int, row: Row<K, V>)
    ensures row in RowsAt(rows, key, time) <==> row in rows && row.key == key && row.time == time
    decreases |rows|
  {
    if rows != [] {
      var n := |rows| - 1;
      assert rows == rows[..n] + [rows[n]];
      RowsAtRows(rows[..n], key, time, row);
    }
  }

  lemma {:induction false} TargetsAre(rows: seq<Row<(Id, Id), ()>>, from: Id, to: Id)
    ensures Distinct(Targets(rows, from))
    ensures to in Targets(rows, from) <==> exists row :: row in rows && row.key == (from, to)
    decreases |rows|
  {
    if rows != [] {
      var n := |rows| - 1;
      var init, last := rows[..n], rows[n];
      assert rows == init + [last];
      TargetsAre(init, from, to);
      TargetsAre(init, from, last.key.1);
    }
  }

  lemma {:induction false} LiveDocumentsAre(rows: seq<Row<(Id, Id), NodeType>>, document: Id)
    ensures Distinct(LiveDocuments(rows))
    ensures document in LiveDocuments(rows) <==> exists row :: row in rows && !row.deleted && row.key.1 == document
    decreases |rows|
  {
    if rows != [] {
      var n := |rows| - 1;
      var init, last := rows[..n], rows[n];
      assert rows == init + [last];
      LiveDocumentsAre(init, document);
      LiveDocumentsAre(init, last.key.1);
    }
  }

  // ---------- the order on names: character by character, as std::string compares ----------

  predicate NameLess(a: string, b: string) {
    b != "" && (a == "" || a[0] < b[0] || (a[0] == b[0] && NameLess(a[1..], b[1..])))
  }

  lemma {:induction false} NameLessTransitive(a: string, b: string, c: string)
    ensures NameLess(a, b) && NameLess(b, c) ==> NameLess(a, c)
    ensures a != b ==> NameLess(a, b) || NameLess(b, a)
    ensures !NameLess(a, a)
  {
    if a != "" {
      NameLessTransitive(a[1..], if b == "" then "" else b[1..], if c == "" then "" else c[1..]);
      if b != "" && a[0] == b[0] && a[1..] == b[1..] {
        assert a == [a[0]] + a[1..] && b == [b[0]] + b[1..];
      }
    }
  }

  // The first difference decides: one name ends there, or has the smaller character.
  predicate DiffersAt(a: string, b: string, k: nat) {
    && k <= |a| && k < |b|
    && a[..k] == b[..k]
    && (k == |a| || a[k] < b[k])
  }

  lemma FirstDiffers(a: string, b: string)
    requires a == "" || b == "" || a[0] != b[0]
    ensures forall k: nat :: DiffersAt(a, b, k) ==> k == 0
  {
    forall k: nat | k > 0 && k <= |a| && k < |b| ensures a[..k] != b[..k] {
      assert a[..k][0] == a[0] && b[..k][0] == b[0];
    }
  }

  /** The order on names is that of a dictionary. */
  lemma {:induction false} NameLessIs(a: string, b: string)
    ensures NameLess(a, b) <==> exists k: nat :: DiffersAt(a, b, k)
  {
    if a != "" && b != "" && a[0] == b[0] {
      NameLessIs(a[1..], b[1..]);
      if NameLess(a[1..], b[1..]) {
        var k: nat :| DiffersAt(a[1..], b[1..], k);
        assert a[..k + 1] == [a[0]] + a[1..][..k] && b[..k + 1] == [b[0]] + b[1..][..k];
        assert DiffersAt(a, b, k + 1);
      }
      if k: nat :| DiffersAt(a, b, k) {
        assert a[1..][..k - 1] == a[..k][1..] && b[1..][..k - 1] == b[..k][1..];
        assert DiffersAt(a[1..], b[1..], k - 1);
      }
    } else {
      if NameLess(a, b) {
        assert DiffersAt(a, b, 0);
      }
      FirstDiffers(a, b);
    }
  }

  function Preferred(left: string, right: string): string {
    if NameLess(left, right) then left else right
  }

  // The name that wins among rows of one timestamp.
  ghost predicate LeastName(rows: seq<Row<Id, string>>, name: string) {
    && (exists row :: row in rows && row.value == name)
    && forall row :: row in rows ==> !NameLess(row.value, name)
  }

  // An entity of a document as the document table lists it.
  ghost predicate InDocument(rows: seq<Row<(Id, Id), NodeType>>, entity: Id, document: Id, kind: NodeType) {
    HasValue(rows, (entity, document), kind)
  }

  // The positions of an entity's live rows of one type in a document.
  ghost function LiveRows(rows: seq<Row<(Id, Id), NodeType>>, entity: Id, document: Id, kind: NodeType): set<nat> {
    set i | 0 <= i < |rows| && Live(rows[i], (entity, document)) && rows[i].value == kind
  }

  lemma OneMoreRow(rows: seq<Row<(Id, Id), NodeType>>, row: Row<(Id, Id), NodeType>, entity: Id, document: Id, kind: NodeType)
    ensures |LiveRows(rows + [row], entity, document, kind)| ==
            |LiveRows(rows, entity, document, kind)| + if Live(row, (entity, document)) && row.value == kind then 1 else 0
  {
    var before, after := LiveRows(rows, entity, document, kind), LiveRows(rows + [row], entity, document, kind);
    if Live(row, (entity, document)) && row.value == kind {
      assert after == before + {|rows|};
    } else {
      assert after == before;
    }
  }

  lemma SomeLiveRow(rows: seq<Row<(Id, Id), NodeType>>, entity: Id, document: Id, kind: NodeType)
    ensures InDocument(rows, entity, document, kind) <==> |LiveRows(rows, entity, document, kind)| > 0
  {
    if InDocument(rows, entity, document, kind) {
      var row :| row in rows && Live(row, (entity, document)) && row.value == kind;
      var i :| 0 <= i < |rows| && rows[i] == row;
      assert i in LiveRows(rows, entity, document, kind);
    }
    if |LiveRows(rows, entity, document, kind)| > 0 {
      var i :| i in LiveRows(rows, entity, document, kind);
      assert rows[i] in rows;
    }
  }

  ghost predicate InSomeDocument(rows: seq<Row<(Id, Id), NodeType>>, entity: Id) {
    exists row :: row in rows && !row.deleted && row.key.0 == entity
  }

  ghost predicate LargestRadius(rows: Attributes<real>, entity: Id, magnitude: real) {
    && (exists row :: LiveTop(rows, entity, row) && row.value == magnitude)
    && forall row :: row in rows && LiveTop(rows, entity, row) ==> row.value <= magnitude
  }

  ghost predicate FarthestPoint(rows: Attributes<Point>, entity: Id, p: Point) {
    && (exists row :: LiveTop(rows, entity, row) && row.value == p)
    && forall row :: row in rows && LiveTop(rows, entity, row) ==> DistanceSquared(row.value) <= DistanceSquared(p)
  }

  // A sphere can be read when its entity is in some document and both its attributes have a live row.
  ghost predicate SphereStored(t: Tables, entity: Id) {
    InSomeDocument(t.document, entity) && HasLive(t.radius, entity) && HasLive(t.coord, entity)
  }

  // ---------- the database ----------

  method LatestName(rows: seq<Row<Id, string>>) returns (latest: string)
    requires rows != []
    ensures LeastName(rows, latest)
  {
    hide NameLess;
    latest := rows[0].value;
    ghost var k := 0;
    NameLessTransitive(latest, latest, latest);
    for i := 0 to |rows|
      invariant 0 <= k < |rows| && latest == rows[k].value
      invariant forall j :: 0 <= j < i ==> !NameLess(rows[j].value, latest)
    {
      var thisName := rows[i].value;
      ghost var before := latest;
      latest := Preferred(latest, thisName);
      if latest == thisName {
        k := i;
      }
      NameLessTransitive(before, thisName, before);
      NameLessTransitive(latest, latest, latest);
      forall j | 0 <= j < i ensures !NameLess(rows[j].value, latest) {
        NameLessTransitive(rows[j].value, thisName, before);
        NameLessTransitive(before, rows[j].value, thisName);
        NameLessTransitive(rows[j].value, before, thisName);
      }
    }
  }

  ghost predicate SomeLive<K, V>(rows: seq<Row<K, V>>, n: nat)
    requires n <= |rows|
  {
    exists k :: 0 <= k < n && !rows[k].deleted
  }

  lemma AliveMeansListed<K, V>(rows: seq<Row<K, V>>, key: K, max: int)
    requires MaxTime(rows, key) == Some(max)
    ensures SomeLive(RowsAt(rows, key, max), |RowsAt(rows, key, max)|) <==> Listed(rows, key)
  {
    MaxTimeIsNewest(rows, key, max);
    var latest := RowsAt(rows, key, max);
    if k :| 0 <= k < |latest| && !latest[k].deleted {
      RowsAtRows(rows, key, max, latest[k]);
      assert Newest(rows, key, latest[k].time);
    }
    if row :| row in rows && Live(row, key) && Newest(rows, key, row.time) {
      RowsAtRows(rows, key, max, row);
    }
  }

  class DatabaseImpl {
    var coord: Attributes<Point>
    var radius: Attributes<real>
    var setOperation: Attributes<SetOperation>
    var name: Attributes<string>
    var edge: seq<Row<(Id, Id), ()>>
    var document: seq<Row<(Id, Id), NodeType>>

    constructor ()
      ensures Snapshot() == Tables([], [], [], [], [], [])
    {
      coord, radius, setOperation, name, edge, document := [], [], [], [], [], [];
    }

    function Snapshot(): Tables
      reads this
    {
      Tables(coord, radius, setOperation, name, edge, document)
    }

    method UpsertCoordI(entity: Id, value: Point, time: int, deleted: bool)
      modifies this
      ensures Snapshot() == old(Snapshot()).(coord := Write(Collect, old(coord), Row(entity, time, deleted, value)))
      ensures Collected(old(coord), coord, Row(entity, time, deleted, value))
    {
      var row := Row(entity, time, deleted, value);
      WriteCollects(coord, row);
      coord := Remaining(Collect, coord, row);
      coord := coord + [row];
    }

    method UpsertSetOperationI(entity: Id, value: SetOperation, time: int, deleted: bool)
      modifies this
      ensures Snapshot() ==
              old(Snapshot()).(setOperation := Write(Collect, old(setOperation), Row(entity, time, deleted, value)))
      ensures Collected(old(setOperation), setOperation, Row(entity, time, deleted, value))
    {
      var row := Row(entity, time, deleted, value);
      WriteCollects(setOperation, row);
      setOperation := Remaining(Collect, setOperation, row);
      setOperation := setOperation + [row];
    }

    method UpsertNameI(entity: Id, value: string, time: int, deleted: bool)
      modifies this
      ensures Snapshot() == old(Snapshot()).(name := Write(Collect, old(name), Row(entity, time, deleted, value)))
      ensures Collected(old(name), name, Row(entity, time, deleted, value))
    {
      var row := Row(entity, time, deleted, value);
      WriteCollects(name, row);
      name := Remaining(Collect, name, row);
      name := name + [row];
    }

    // The collection statement is built and thrown away.
    method UpsertRadiusI(entity: Id, value: real, time: int, deleted: bool)
      modifies this
      ensures Snapshot() == old(Snapshot()).(radius := old(radius) + [Row(entity, time, deleted, value)])
    {
      radius := radius + [Row(entity, time, deleted, value)];
    }

    method ConnectI(from: Id, to: Id, time: int, deleted: bool)
      modifies this
      ensures Snapshot() == old(Snapshot()).(edge := Write(Collect, old(edge), Row((from, to), time, deleted, ())))
      ensures Collected(old(edge), edge, Row((from, to), time, deleted, ()))
    {
      var row := Row((from, to), time, deleted, ());
      WriteCollects(edge, row);
      edge := Remaining(Collect, edge, row);
      edge := edge + [row];
    }

    method CreateI(entity: Id, kind: NodeType, doc: Id, time: int, deleted: bool)
      modifies this
      ensures Snapshot() ==
              old(Snapshot()).(document := Write(CollectTombstones, old(document), Row((entity, doc), time, deleted, kind)))
      ensures CollectedTombstones(old(document), document, Row((entity, doc), time, deleted, kind))
    {
      var row := Row((entity, doc), time, deleted, kind);
      WriteCollects(document, row);
      document := Remaining(CollectTombstones, document, row);
      document := document + [row];
    }

    // Retracting a coordinate writes a live row.
    method RetractCoord(entity: Id, value: Point, time: int)
      modifies this
      ensures Snapshot() == old(Snapshot()).(coord := Write(Collect, old(coord), Row(entity, time, false, value)))
      ensures Collected(old(coord), coord, Row(entity, time, false, value)) && HasLive(coord, entity)
    {
      UpsertCoordI(entity, value, time, false);
      assert Row(entity, time, false, value) in coord;
    }

    // Retracting a radius adds a tombstone that no read ever looks at.
    method RetractRadius(entity: Id, value: real, time: int)
      modifies this
      ensures Snapshot() == old(Snapshot()).(radius := old(radius) + [Row(entity, time, true, value)])
      ensures forall row :: LiveTop(radius, entity, row) <==> LiveTop(old(radius), entity, row)
    {
      UpsertRadiusI(entity, value, time, true);
    }

    // Removal writes a tombstone and forgets the type.
    method Remove(entity: Id, doc: Id, time: int)
      modifies this
      ensures Snapshot() == old(Snapshot()).(document :=
              Write(CollectTombstones, old(document), Row((entity, doc), time, true, SphereNode)))
      ensures CollectedTombstones(old(document), document, Row((entity, doc), time, true, SphereNode))
    {
      CreateI(entity, SphereNode, doc, time, true);
    }

    // ---------- reads ----------

    /** The targets of an entity's edges: those whose newest rows include a live one. */
    method Edges(from: Id) returns (res: seq<Id>)
      ensures forall to: Id :: to in res <==> Listed(edge, (from, to))
      ensures Distinct(res)
    {
      var lookup := Targets(edge, from);
      res := [];
      TargetsAre(edge, from, from);
      for i := 0 to |lookup|
        invariant forall to: Id :: to in res <==> to in lookup[..i] && Listed(edge, (from, to))
        invariant Distinct(res)
      {
        var to := lookup[i];
        TargetsAre(edge, from, to);
        MaxTimeIsNewest(edge, (from, to), 0);
        var max := MaxTime(edge, (from, to)).value;
        var latestEdges := RowsAt(edge, (from, to), max);
        var alive := false;
        for j := 0 to |latestEdges|
          invariant alive <==> SomeLive(latestEdges, j)
        {
          alive := alive || !latestEdges[j].deleted;
        }
        assert lookup[..i + 1] == lookup[..i] + [to];
        AliveMeansListed(edge, (from, to), max);
        assert alive <==> Listed(edge, (from, to));
        assert to !in lookup[..i];
        if alive {
          res := res + [to];
        }
      }
      assert lookup[..|lookup|] == lookup;
      forall to: Id | Listed(edge, (from, to)) ensures to in lookup {
        TargetsAre(edge, from, to);
      }
    }

    /** The entities of a document: one entry for every live row. */
    method Entities(of: Id) returns (res: seq<(Id, NodeType)>)
      ensures forall entity: Id, kind :: multiset(res)[(entity, kind)] == |LiveRows(document, entity, of, kind)|
      ensures forall entity: Id, kind :: (entity, kind) in res <==> InDocument(document, entity, of, kind)
    {
      hide InDocument;
      res := [];
      for i := 0 to |document|
        invariant forall entity: Id, kind :: multiset(res)[(entity, kind)] == |LiveRows(document[..i], entity, of, kind)|
      {
        var row := document[i];
        assert document[..i + 1] == document[..i] + [row];
        forall entity: Id, kind
          ensures |LiveRows(document[..i + 1], entity, of, kind)| ==
                  |LiveRows(document[..i], entity, of, kind)| +
                  if Live(row, (entity, of)) && row.value == kind then 1 else 0
        {
          OneMoreRow(document[..i], row, entity, of, kind);
        }
        if !row.deleted && row.key.1 == of {
          res := res + [(row.key.0, row.value)];
        }
      }
      assert document[..|document|] == document;
      forall entity: Id, kind ensures (entity, kind) in res <==> InDocument(document, entity, of, kind) {
        SomeLiveRow(document, entity, of, kind);
        assert (entity, kind) in multiset(res) <==> (entity, kind) in res;
      }
    }

    // The query for a live document row of the entity, in any document.
    method EntityIsLive(entity: Id) returns (found: bool)
      ensures found <==> InSomeDocument(document, entity)
    {
      found := exists i :: 0 <= i < |document| && !document[i].deleted && document[i].key.0 == entity;
      if found {
        ghost var i :| 0 <= i < |document| && !document[i].deleted && document[i].key.0 == entity;
        assert document[i] in document;
      }
    }

    method MaxRadius(rows: Attributes<real>, entity: Id) returns (maxRadius: real)
      requires rows == LatestLive(radius, entity) && rows != []
      ensures LargestRadius(radius, entity, maxRadius)
    {
      maxRadius := rows[0].value;
      ghost var k := 0;
      for i := 0 to |rows|
        invariant 0 <= k < |rows| && maxRadius == rows[k].value
        invariant forall j :: 0 <= j < i ==> rows[j].value <= maxRadius
      {
        if rows[i].value > maxRadius {
          maxRadius := rows[i].value;
          k := i;
        }
      }
      LatestLiveIsTop(radius, entity, rows[k]);
      forall row | row in radius && LiveTop(radius, entity, row) ensures row.value <= maxRadius {
        LatestLiveIsTop(radius, entity, row);
      }
    }

    method FarthestCoord(rows: Attributes<Point>, entity: Id) returns (farthest: Point)
      requires rows == LatestLive(coord, entity) && rows != []
      ensures FarthestPoint(coord, entity, farthest)
    {
      hide DistanceSquared;
      farthest := rows[0].value;
      ghost var k := 0;
      for i := 0 to |rows|
        invariant 0 <= k < |rows| && farthest == rows[k].value
        invariant forall j :: 0 <= j < i ==> DistanceSquared(rows[j].value) <= DistanceSquared(farthest)
      {
        if DistanceSquared(rows[i].value) > DistanceSquared(farthest) {
          farthest := rows[i].value;
          k := i;
        }
      }
      LatestLiveIsTop(coord, entity, rows[k]);
      forall row | row in coord && LiveTop(coord, entity, row)
        ensures DistanceSquared(row.value) <= DistanceSquared(farthest)
      {
        LatestLiveIsTop(coord, entity, row);
      }
    }

    /** A sphere's largest latest radius and farthest latest point. */
    method SphereOf(from: Id) returns (res: Option<Node>)
      ensures res.Some? <==> SphereStored(Snapshot(), from)
      ensures res.Some? ==> res.value.Sphere? && res.value.id == from
      ensures res.Some? ==> LargestRadius(radius, from, res.value.magnitude) && FarthestPoint(coord, from, res.value.center)
    {
      var found := EntityIsLive(from);
      if !found {
        return None;
      }
      LatestLiveExists(radius, from);
      LatestLiveExists(coord, from);
      var radiusRes := LatestLive(radius, from);
      if radiusRes == [] {
        return None;
      }
      var maxRadius := MaxRadius(radiusRes, from);
      var coordRes := LatestLive(coord, from);
      if coordRes == [] {
        return None;
      }
      var farthest := FarthestCoord(coordRes, from);
      res := Some(Sphere(from, farthest, maxRadius));
    }

    /** A set operation's type: any one of the latest live rows, for the query does not order rows of one timestamp. */
    method SetOpOf(from: Id) returns (res: Option<Node>)
      ensures res.Some? <==> HasLive(setOperation, from)
      ensures res.Some? ==> res.value.SetOp? && res.value.id == from
      ensures res.Some? ==> exists row :: LiveTop(setOperation, from, row) && row.value == res.value.operation
    {
      LatestLiveExists(setOperation, from);
      var latest := LatestLive(setOperation, from);
      if latest == [] {
        return None;
      }
      var i :| 0 <= i < |latest|;
      LatestLiveIsTop(setOperation, from, latest[i]);
      res := Some(SetOp(from, latest[i].value));
    }

    // Every name so far belongs to one of the first n documents, in their order.
    ghost predicate NamesOf(docs: seq<Id>, names: seq<(Id, string)>, from: seq<nat>, n: nat)
      requires |from| == |names| && n <= |docs|
      reads this
    {
      && (forall k :: 0 <= k < |names| ==> from[k] < n && names[k].0 == docs[from[k]])
      && (forall k :: 0 <= k < |names| ==> HasLive(name, names[k].0) && LeastName(LatestLive(name, names[k].0), names[k].1))
      && (forall k, l :: 0 <= k < l < |names| ==> from[k] < from[l])
    }

    /** The documents that have a live entity and a live name, each once, with its least latest name. */
    method Documents() returns (names: seq<(Id, string)>)
      ensures forall doc: Id, n :: (doc, n) in names ==>
                HasLive(name, doc) && LeastName(LatestLive(name, doc), n)
      ensures forall doc: Id :: (exists k :: 0 <= k < |names| && names[k].0 == doc) <==>
                (exists row :: row in document && !row.deleted && row.key.1 == doc) && HasLive(name, doc)
      ensures forall i, j :: 0 <= i < j < |names| ==> names[i].0 != names[j].0
    {
      hide LiveDocuments, LatestLive, HasLive, LeastName;
      var docs := LiveDocuments(document);
      names := [];
      ghost var from: seq<nat> := [];
      LiveDocumentsAre(document, 0);
      for i := 0 to |docs|
        invariant |from| == |names| && NamesOf(docs, names, from, i)
        invariant forall j :: 0 <= j < i && HasLive(name, docs[j]) ==> j in from
      {
        var nameLookup := LatestLive(name, docs[i]);
        LatestLiveExists(name, docs[i]);
        if nameLookup != [] {
          var latest := LatestName(nameLookup);
          names := names + [(docs[i], latest)];
          from := from + [i];
        }
      }
      forall doc: Id
        ensures (exists k :: 0 <= k < |names| && names[k].0 == doc) <==>
                (exists row :: row in document && !row.deleted && row.key.1 == doc) && HasLive(name, doc)
      {
        LiveDocumentsAre(document, doc);
        if HasLive(name, doc) && doc in docs {
          var j :| 0 <= j < |docs| && docs[j] == doc;
          var k :| 0 <= k < |from| && from[k] == j;
          assert names[k].0 == doc;
        }
      }
    }

  }
}
