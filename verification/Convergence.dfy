// Replication as a state machine: sites act on their own and take messages from a channel that keeps every message
// and hands it out in any order, any number of times.
module Convergence {
  import opened Database
  import opened LastWriterWins
  import opened Replication
  import opened Scene
  import opened Wrappers

  // A site's tables, and every action applied to them so far.
  datatype Site = Site(tables: Tables, history: seq<Action>)

  datatype System = System(sites: seq<Site>, channel: set<Message>)

  datatype Step = Local(site: nat, action: Action) | Deliver(site: nat, message: Message)

  const EMPTY := Tables([], [], [], [], [], [])

  function Initial(n: nat): System {
    System(seq(n, _ => Site(EMPTY, [])), {})
  }

  function Act(s: Site, a: Action): Site {
    Site(Applied(s.tables, a), s.history + [a])
  }

  function ActAll(s: Site, actions: seq<Action>): Site {
    if actions == [] then s else Act(ActAll(s, actions[..|actions| - 1]), actions[|actions| - 1])
  }

  predicate Enabled(s: System, step: Step) {
    step.site < |s.sites| && (step.Deliver? ==> step.message in s.channel)
  }

  function Next(s: System, step: Step): System
    requires Enabled(s, step)
  {
    match step
    case Local(i, a) => System(s.sites[i := Act(s.sites[i], a)], s.channel + set m | m in Sent(a))
    case Deliver(i, m) => s.(sites := s.sites[i := ActAll(s.sites[i], Processed(m))])
  }

  // The state after a run, if every step was possible.
  function Run(n: nat, steps: seq<Step>): Option<System> {
    if steps == [] then Some(Initial(n))
    else
      var before, step := Run(n, steps[..|steps| - 1]), steps[|steps| - 1];
      if before.Some? && Enabled(before.value, step) then Some(Next(before.value, step)) else None
  }

  // Runs that create nodes, connect them and update attributes.
  predicate Constructive(steps: seq<Step>) {
    forall i :: 0 <= i < |steps| && steps[i].Local? ==> !steps[i].action.Disconnect?
  }

  // Every message has been processed everywhere.
  predicate Settled(s: System) {
    forall i, m :: 0 <= i < |s.sites| && m in s.channel ==> forall a :: a in Processed(m) ==> a in s.sites[i].history
  }

  // ---------- the tables are replayed from logs ----------

  // The rows that a history wrote to one table.
  function Log<K, V>(h: seq<Action>, rowsOf: Action -> seq<Row<K, V>>): seq<Row<K, V>> {
    if h == [] then [] else Log(h[..|h| - 1], rowsOf) + rowsOf(h[|h| - 1])
  }

  function Rebuilt(h: seq<Action>): Tables {
    Tables(Replay(Collect, Log(h, CoordRows)), Replay(KeepAll, Log(h, RadiusRows)), Replay(Collect, Log(h, TypeRows)),
           Replay(Collect, Log(h, NameRows)), Replay(Collect, Log(h, EdgeRows)), Replay(CollectTombstones, Log(h, DocumentRows)))
  }

  lemma {:induction false} ReplayConcat<K, V>(rule: Rule, log: seq<Row<K, V>>, rows: seq<Row<K, V>>)
    ensures Replay(rule, log + rows) == WriteAll(rule, Replay(rule, log), rows)
    decreases |rows|
  {
    if rows == [] {
      assert log + rows == log;
    } else {
      var init := rows[..|rows| - 1];
      assert (log + rows)[..|log + rows| - 1] == log + init;
      ReplayConcat(rule, log, init);
    }
  }

  // One more action, in one table.
  lemma LogStep<K, V>(rule: Rule, h: seq<Action>, a: Action, rowsOf: Action -> seq<Row<K, V>>)
    ensures Replay(rule, Log(h + [a], rowsOf)) == WriteAll(rule, Replay(rule, Log(h, rowsOf)), rowsOf(a))
  {
    assert (h + [a])[..|h|] == h;
    ReplayConcat(rule, Log(h, rowsOf), rowsOf(a));
  }

  lemma ActRebuilds(s: Site, a: Action)
    requires s.tables == Rebuilt(s.history)
    ensures Act(s, a).tables == Rebuilt(Act(s, a).history)
  {
    hide WriteAll, Replay, Log, EdgeRows, DocumentRows, RadiusRows, CoordRows, TypeRows, NameRows;
    var h := s.history;
    LogStep(Collect, h, a, CoordRows);
    LogStep(KeepAll, h, a, RadiusRows);
    LogStep(Collect, h, a, TypeRows);
    LogStep(Collect, h, a, NameRows);
    LogStep(Collect, h, a, EdgeRows);
    LogStep(CollectTombstones, h, a, DocumentRows);
  }

  lemma EmptyRebuilt(s: Site)
    ensures Rebuilt([]) == EMPTY && ActAll(s, []) == s
  {
  }

  lemma LastAct(s: Site, actions: seq<Action>)
    requires actions != []
    ensures ActAll(s, actions) == Act(ActAll(s, actions[..|actions| - 1]), actions[|actions| - 1])
  {
    hide Applied;
  }

  /** Whatever actions a database has applied, its tables are the replays of their logs. */
  lemma {:induction false} ActionsRebuild(h: seq<Action>)
    ensures ActAll(Site(EMPTY, []), h) == Site(Rebuilt(h), h)
    decreases |h|
  {
    hide Applied, Rebuilt, ActAll;
    if h == [] {
      EmptyRebuilt(Site(EMPTY, []));
    } else {
      var n := |h| - 1;
      ActionsRebuild(h[..n]);
      ActRebuilds(Site(Rebuilt(h[..n]), h[..n]), h[n]);
      assert h[..n] + [h[n]] == h;
      LastAct(Site(EMPTY, []), h);
    }
  }

  // Operations on each key of each table came in nondecreasing time.
  predicate OrderedHistory(h: seq<Action>) {
    && InOrder(Log(h, EdgeRows)) && InOrder(Log(h, DocumentRows)) && InOrder(Log(h, CoordRows))
    && InOrder(Log(h, TypeRows)) && InOrder(Log(h, NameRows))
  }

  // A live operation of the whole log at its key's greatest timestamp.
  ghost predicate Winner<K, V>(log: seq<Row<K, V>>, key: K, row: Row<K, V>) {
    row in log && Live(row, key) && Newest(log, key, row.time)
  }

  // A table answers as last-writer-wins over the log it was written from.
  ghost predicate AnswersAsLog<K(!new), V(!new)>(table: seq<Row<K, V>>, log: seq<Row<K, V>>) {
    && (forall key :: Listed(table, key) <==> Listed(log, key))
    && (forall key :: HasLive(table, key) <==> Listed(log, key))
    && (forall key, row :: LiveTop(table, key, row) <==> Winner(log, key, row))
  }

  lemma OrderedLogAnswers<K(!new), V(!new)>(rule: Rule, log: seq<Row<K, V>>)
    requires rule != KeepAll && InOrder(log)
    ensures AnswersAsLog(Replay(rule, log), log)
  {
    hide Replay, InOrder, Listed, HasLive, LiveTop;
    forall key
      ensures Listed(Replay(rule, log), key) <==> Listed(log, key)
      ensures HasLive(Replay(rule, log), key) <==> Listed(log, key)
    {
      OrderedAnswers(rule, log, key);
    }
    forall key, row ensures LiveTop(Replay(rule, log), key, row) <==> Winner(log, key, row) {
      OrderedAnswers(rule, log, key);
    }
  }

  /** For every history that was ordered on each key, the database answers as last-writer-wins over the whole log:
      its edges, its documents' entities, and the rows its coordinate, type and name reads choose from. */
  lemma OrderedHistoryAnswers(h: seq<Action>)
    requires OrderedHistory(h)
    ensures var t := ActAll(Site(EMPTY, []), h).tables;
            && AnswersAsLog(t.edge, Log(h, EdgeRows))
            && AnswersAsLog(t.document, Log(h, DocumentRows))
            && AnswersAsLog(t.coord, Log(h, CoordRows))
            && AnswersAsLog(t.setOperation, Log(h, TypeRows))
            && AnswersAsLog(t.name, Log(h, NameRows))
  {
    hide Replay, InOrder, AnswersAsLog, Log, ActAll;
    ActionsRebuild(h);
    OrderedLogAnswers(Collect, Log(h, EdgeRows));
    OrderedLogAnswers(CollectTombstones, Log(h, DocumentRows));
    OrderedLogAnswers(Collect, Log(h, CoordRows));
    OrderedLogAnswers(Collect, Log(h, TypeRows));
    OrderedLogAnswers(Collect, Log(h, NameRows));
  }

  // ---------- what every step keeps ----------

  predicate Private(a: Action) {
    a.Upsert? && a.attribute.NameAttribute?
  }

  // Kept by every step: tables are replays of what was applied, and no message carries a name.
  predicate Sound(s: System) {
    && (forall i :: 0 <= i < |s.sites| ==> s.sites[i].tables == Rebuilt(s.sites[i].history))
    && (forall m, a :: m in s.channel && a in Processed(m) ==> !Private(a))
  }

  // An action that the other sites will make when they process its message.
  predicate Shared(channel: set<Message>, a: Action) {
    exists m :: m in channel && a in Processed(m)
  }

  // Kept without disconnections: whatever a site has done, apart from names, the channel offers to all.
  predicate Invariant(s: System) {
    && Sound(s)
    && (forall i, a :: 0 <= i < |s.sites| && a in s.sites[i].history ==> !a.Disconnect? && (Private(a) || Shared(s.channel, a)))
    && (forall m, a :: m in s.channel && a in Processed(m) ==> !a.Disconnect?)
  }

  // Apart from names and disconnections, processing a message repeats the action it was sent for.
  lemma ProcessedIsSent(a: Action)
    ensures Private(a) ==> Sent(a) == []
    ensures !Private(a) ==> |Sent(a)| == 1 && |Processed(Sent(a)[0])| == 1 && !Private(Processed(Sent(a)[0])[0])
    ensures !Private(a) && !a.Disconnect? ==> Processed(Sent(a)[0]) == [a]
  {
  }

  lemma ActOnce(s: Site, actions: seq<Action>)
    requires |actions| == 1
    ensures ActAll(s, actions) == Act(s, actions[0])
  {
    hide Applied;
    assert actions[..0] == [];
    assert ActAll(s, []) == s;
  }

  lemma AtMostOne(m: Message)
    ensures |Processed(m)| <= 1
  {
  }

  lemma StepKeepsSound(s: System, step: Step)
    requires Sound(s) && Enabled(s, step)
    ensures Sound(Next(s, step)) && |Next(s, step).sites| == |s.sites|
  {
    hide Rebuilt, Applied, Processed, Sent, Private;
    match step
    case Local(i, a) =>
      ActRebuilds(s.sites[i], a);
      ProcessedIsSent(a);
    case Deliver(i, m) =>
      AtMostOne(m);
      if Processed(m) != [] {
        ActRebuilds(s.sites[i], Processed(m)[0]);
        ActOnce(s.sites[i], Processed(m));
      }
  }

  /** After every run, disconnections included, each site's tables are the replays of what it has applied. */
  lemma {:induction false} RunIsSound(n: nat, steps: seq<Step>)
    requires Run(n, steps).Some?
    ensures Sound(Run(n, steps).value) && |Run(n, steps).value.sites| == n
    decreases |steps|
  {
    hide Processed, Sent, Applied, Private;
    if steps != [] {
      hide Sound;
      var k := |steps| - 1;
      RunIsSound(n, steps[..k]);
      StepKeepsSound(Run(n, steps[..k]).value, steps[k]);
    }
  }

  lemma DeliveredHistory(s: System, i: nat, m: Message)
    requires i < |s.sites| && m in s.channel
    ensures Next(s, Deliver(i, m)).sites[i].history == s.sites[i].history + Processed(m)
  {
    hide Applied, Processed;
    AtMostOne(m);
    if Processed(m) != [] {
      ActOnce(s.sites[i], Processed(m));
    }
  }

  lemma LocalKeepsInvariant(s: System, i: nat, a: Action)
    requires Invariant(s) && i < |s.sites| && !a.Disconnect?
    ensures Invariant(Next(s, Local(i, a)))
  {
    hide Sound, Applied, Processed, Sent, Private;
    var t := Next(s, Local(i, a));
    StepKeepsSound(s, Local(i, a));
    ProcessedIsSent(a);
    assert s.channel <= t.channel;
    forall k, b | 0 <= k < |t.sites| && b in t.sites[k].history ensures !b.Disconnect? && (Private(b) || Shared(t.channel, b)) {
      if b in s.sites[k].history {
        if m :| m in s.channel && b in Processed(m) {
          assert m in t.channel;
        }
      } else if !Private(b) {
        assert b == a && Sent(a)[0] in t.channel;
      }
    }
    forall m, b | m in t.channel && b in Processed(m) ensures !b.Disconnect? {
      if m !in s.channel {
        assert m in Sent(a);
      }
    }
  }

  lemma DeliverKeepsInvariant(s: System, i: nat, m: Message)
    requires Invariant(s) && i < |s.sites| && m in s.channel
    ensures Invariant(Next(s, Deliver(i, m)))
  {
    hide Sound, Applied, Processed, Private;
    var t := Next(s, Deliver(i, m));
    StepKeepsSound(s, Deliver(i, m));
    DeliveredHistory(s, i, m);
    forall k, b | 0 <= k < |t.sites| && b in t.sites[k].history ensures !b.Disconnect? && (Private(b) || Shared(t.channel, b)) {
      if b !in s.sites[k].history {
        assert b in Processed(m);
      }
    }
  }

  lemma InitialInvariant(n: nat)
    ensures Invariant(Initial(n))
  {
  }

  /** The invariant holds in every state that a constructive run reaches. */
  lemma {:induction false} RunKeepsInvariant(n: nat, steps: seq<Step>)
    requires Run(n, steps).Some? && Constructive(steps)
    ensures var s := Run(n, steps).value; Invariant(s) && |s.sites| == n
    decreases |steps|
  {
    hide Invariant, Processed, Sent, Applied;
    if steps == [] {
      InitialInvariant(n);
    } else {
      var k := |steps| - 1;
      RunKeepsInvariant(n, steps[..k]);
      var before := Run(n, steps[..k]).value;
      match steps[k]
      case Local(i, a) => LocalKeepsInvariant(before, i, a);
      case Deliver(i, m) => DeliverKeepsInvariant(before, i, m);
    }
  }

  // ---------- settled sites have done the same shared actions ----------

  lemma SettledHistories(s: System, i: nat, j: nat, a: Action)
    requires Invariant(s) && Settled(s) && i < |s.sites| && j < |s.sites|
    requires a in s.sites[i].history && !Private(a)
    ensures a in s.sites[j].history
  {
    hide Processed, Private, Rebuilt;
    var m :| m in s.channel && a in Processed(m);
  }

  // The rows of a log come from the actions of the history.
  lemma {:induction false} LogRows<K, V>(h: seq<Action>, rowsOf: Action -> seq<Row<K, V>>, row: Row<K, V>)
    ensures row in Log(h, rowsOf) <==> exists a :: a in h && row in rowsOf(a)
    decreases |h|
  {
    if h != [] {
      var n := |h| - 1;
      assert h == h[..n] + [h[n]];
      LogRows(h[..n], rowsOf, row);
    }
  }

  // A table that sent actions write alone, and only disconnections write tombstones to.
  ghost predicate Public<K(!new), V(!new)>(rowsOf: Action -> seq<Row<K, V>>) {
    && (forall a :: Private(a) ==> rowsOf(a) == [])
    && (forall a: Action, row :: !a.Disconnect? && row in rowsOf(a) ==> !row.deleted)
  }

  lemma PublicTables()
    ensures Public(EdgeRows) && Public(DocumentRows) && Public(RadiusRows) && Public(CoordRows) && Public(TypeRows)
  {
  }

  lemma SettledRow<K(!new), V(!new)>(s: System, i: nat, j: nat, rowsOf: Action -> seq<Row<K, V>>, row: Row<K, V>)
    requires Invariant(s) && Settled(s) && i < |s.sites| && j < |s.sites| && Public(rowsOf)
    ensures row in Log(s.sites[i].history, rowsOf) ==> row in Log(s.sites[j].history, rowsOf) && !row.deleted
  {
    hide Settled, Sound, Log;
    LogRows(s.sites[i].history, rowsOf, row);
    LogRows(s.sites[j].history, rowsOf, row);
    if a :| a in s.sites[i].history && row in rowsOf(a) {
      assert !Private(a);
      SettledHistories(s, i, j, a);
    }
  }

  // Settled sites have logs with the same rows, all of them live.
  lemma SettledLogs<K(!new), V(!new)>(s: System, i: nat, j: nat, rowsOf: Action -> seq<Row<K, V>>)
    requires Invariant(s) && Settled(s) && i < |s.sites| && j < |s.sites| && Public(rowsOf)
    ensures SameRows(Log(s.sites[i].history, rowsOf), Log(s.sites[j].history, rowsOf))
    ensures forall row :: row in Log(s.sites[i].history, rowsOf) ==> !row.deleted
  {
    hide Invariant, Settled, Log;
    forall row ensures row in Log(s.sites[i].history, rowsOf) ==> row in Log(s.sites[j].history, rowsOf) && !row.deleted {
      SettledRow(s, i, j, rowsOf, row);
    }
    forall row ensures row in Log(s.sites[j].history, rowsOf) ==> row in Log(s.sites[i].history, rowsOf) {
      SettledRow(s, j, i, rowsOf, row);
    }
  }

  // Two tables give the same answers to every read.
  ghost predicate SameAnswers<K(!new), V(!new)>(a: seq<Row<K, V>>, b: seq<Row<K, V>>) {
    && (forall key, row :: LiveTop(a, key, row) <==> LiveTop(b, key, row))
    && (forall key :: HasLive(a, key) <==> HasLive(b, key))
    && (forall key :: Listed(a, key) <==> Listed(b, key))
  }

  // Two logs of live operations with the same rows answer alike, whatever the order and the collection rule.
  lemma SameLogsAgree<K(!new), V(!new)>(rule: Rule, a: seq<Row<K, V>>, b: seq<Row<K, V>>)
    requires SameRows(a, b) && forall row :: row in a ==> !row.deleted
    ensures SameAnswers(Replay(rule, a), Replay(rule, b))
  {
    hide Replay, LiveTop, HasLive, Listed;
    forall key
      ensures HasLive(Replay(rule, a), key) <==> HasLive(Replay(rule, b), key)
      ensures Listed(Replay(rule, a), key) <==> Listed(Replay(rule, b), key)
    {
      LiveLogAnswers(rule, a, key);
      LiveLogAnswers(rule, b, key);
      SameOperationsSameTop(a, b, key);
    }
    forall key, row ensures LiveTop(Replay(rule, a), key, row) <==> LiveTop(Replay(rule, b), key, row) {
      LiveLogAnswers(rule, a, key);
      LiveLogAnswers(rule, b, key);
      SameOperationsSameTop(a, b, key);
    }
  }

  lemma SettledTablesAgree(s: System, i: nat, j: nat)
    requires Invariant(s) && Settled(s) && i < |s.sites| && j < |s.sites|
    ensures var t, u := s.sites[i].tables, s.sites[j].tables;
            SameAnswers(t.edge, u.edge) && SameAnswers(t.document, u.document) && SameAnswers(t.radius, u.radius) &&
            SameAnswers(t.coord, u.coord) && SameAnswers(t.setOperation, u.setOperation)
  {
    hide Settled, Replay, Log, SameAnswers, SameRows;
    PublicTables();
    var h, k := s.sites[i].history, s.sites[j].history;
    SettledLogs(s, i, j, EdgeRows);
    SameLogsAgree(Collect, Log(h, EdgeRows), Log(k, EdgeRows));
    SettledLogs(s, i, j, DocumentRows);
    SameLogsAgree(CollectTombstones, Log(h, DocumentRows), Log(k, DocumentRows));
    SettledLogs(s, i, j, RadiusRows);
    SameLogsAgree(KeepAll, Log(h, RadiusRows), Log(k, RadiusRows));
    SettledLogs(s, i, j, CoordRows);
    SameLogsAgree(Collect, Log(h, CoordRows), Log(k, CoordRows));
    SettledLogs(s, i, j, TypeRows);
    SameLogsAgree(Collect, Log(h, TypeRows), Log(k, TypeRows));
  }

  // Two sites answer alike for edges, document entities, radii and distances of coordinates from the origin; the
  // candidates for a set operation's type are the same.
  ghost predicate Agree(t: Tables, u: Tables) {
    && (forall from: Id, to: Id :: Listed(t.edge, (from, to)) <==> Listed(u.edge, (from, to)))
    && (forall entity: Id, document: Id :: HasLive(t.document, (entity, document)) <==> HasLive(u.document, (entity, document)))
    && (forall entity: Id, m: real :: LargestRadius(t.radius, entity, m) <==> LargestRadius(u.radius, entity, m))
    && (forall entity: Id, p, q :: FarthestPoint(t.coord, entity, p) && FarthestPoint(u.coord, entity, q) ==>
          DistanceSquared(p) == DistanceSquared(q))
    && (forall entity: Id :: SphereStored(t, entity) <==> SphereStored(u, entity))
    && (forall entity: Id, row :: LiveTop(t.setOperation, entity, row) <==> LiveTop(u.setOperation, entity, row))
  }

  lemma LargestRadiusAgrees(a: Attributes<real>, b: Attributes<real>, entity: Id, m: real)
    requires forall row :: LiveTop(a, entity, row) <==> LiveTop(b, entity, row)
    ensures LargestRadius(a, entity, m) ==> LargestRadius(b, entity, m)
  {
    if LargestRadius(a, entity, m) {
      var row :| LiveTop(a, entity, row) && row.value == m;
      assert LiveTop(b, entity, row);
    }
  }

  lemma FarthestPointAgrees(a: Attributes<Point>, b: Attributes<Point>, entity: Id, p: Point, q: Point)
    requires forall row :: LiveTop(a, entity, row) <==> LiveTop(b, entity, row)
    requires FarthestPoint(a, entity, p) && FarthestPoint(b, entity, q)
    ensures DistanceSquared(p) == DistanceSquared(q)
  {
    hide DistanceSquared;
    var x :| LiveTop(a, entity, x) && x.value == p;
    var y :| LiveTop(b, entity, y) && y.value == q;
    assert LiveTop(b, entity, x) && LiveTop(a, entity, y);
  }

  lemma SomeDocumentAgrees(a: seq<Row<(Id, Id), NodeType>>, b: seq<Row<(Id, Id), NodeType>>, entity: Id)
    requires forall document: Id :: HasLive(a, (entity, document)) <==> HasLive(b, (entity, document))
    ensures InSomeDocument(a, entity) ==> InSomeDocument(b, entity)
  {
    if row :| row in a && !row.deleted && row.key.0 == entity {
      assert Live(row, (entity, row.key.1));
      assert HasLive(a, (entity, row.key.1));
      var other :| other in b && Live(other, (entity, row.key.1));
    }
  }

  lemma SpheresAgree(t: Tables, u: Tables, entity: Id)
    requires SameAnswers(t.document, u.document) && SameAnswers(t.radius, u.radius) && SameAnswers(t.coord, u.coord)
    requires SphereStored(t, entity)
    ensures SphereStored(u, entity)
  {
    hide HasLive, LiveTop, InSomeDocument;
    SomeDocumentAgrees(t.document, u.document, entity);
  }

  /** Convergence: after any run of creations, connections and attribute updates, however messages were reordered and
      repeated, any two sites agree once every message has been processed everywhere. */
  lemma SettledSitesAgree(n: nat, steps: seq<Step>, i: nat, j: nat)
    requires Run(n, steps).Some? && Constructive(steps) && i < n && j < n
    requires Settled(Run(n, steps).value)
    ensures var s := Run(n, steps).value; |s.sites| == n && Agree(s.sites[i].tables, s.sites[j].tables)
  {
    hide Invariant, Settled, Run, Listed, HasLive, LiveTop, LargestRadius, FarthestPoint, SphereStored, DistanceSquared;
    RunKeepsInvariant(n, steps);
    var s := Run(n, steps).value;
    var t, u := s.sites[i].tables, s.sites[j].tables;
    SettledTablesAgree(s, i, j);
    forall entity: Id, m: real ensures LargestRadius(t.radius, entity, m) <==> LargestRadius(u.radius, entity, m) {
      LargestRadiusAgrees(t.radius, u.radius, entity, m);
      LargestRadiusAgrees(u.radius, t.radius, entity, m);
    }
    forall entity: Id, p, q | FarthestPoint(t.coord, entity, p) && FarthestPoint(u.coord, entity, q)
      ensures DistanceSquared(p) == DistanceSquared(q)
    {
      FarthestPointAgrees(t.coord, u.coord, entity, p, q);
    }
    forall entity: Id ensures SphereStored(t, entity) <==> SphereStored(u, entity) {
      if SphereStored(t, entity) {
        SpheresAgree(t, u, entity);
      }
      if SphereStored(u, entity) {
        SpheresAgree(u, t, entity);
      }
    }
  }

  // ---------- the type of a listed entity ----------

  // A creation with the type that nothing newer on the entity has followed.
  ghost predicate KindStands(log: seq<Row<(Id, Id), NodeType>>, entity: Id, document: Id, kind: NodeType) {
    exists k :: 0 <= k < |log| && Stands(log, (entity, document), k) && log[k].value == kind
  }

  /** At any time, in any run: the types a site lists are those of its standing creations. */
  lemma KindsListed(n: nat, steps: seq<Step>, i: nat, entity: Id, document: Id, kind: NodeType)
    requires Run(n, steps).Some? && i < n
    ensures |Run(n, steps).value.sites| == n
    ensures var site := Run(n, steps).value.sites[i];
            InDocument(site.tables.document, entity, document, kind) <==>
            KindStands(Log(site.history, DocumentRows), entity, document, kind)
  {
    hide Run, Replay, Log;
    RunIsSound(n, steps);
    var site := Run(n, steps).value.sites[i];
    assert site.tables == Rebuilt(site.history);
    ListedValues(CollectTombstones, Log(site.history, DocumentRows), (entity, document), kind);
  }

  predicate Creates(m: Message, entity: Id, document: Id) {
    m.CreateNode? && m.node.id == entity && m.document == document
  }

  ghost predicate LatestCreation(channel: set<Message>, entity: Id, document: Id, m: Message) {
    && m in channel && Creates(m, entity, document)
    && forall other :: other in channel && Creates(other, entity, document) ==> other.time <= m.time
  }

  ghost predicate LatestKind(channel: set<Message>, entity: Id, document: Id, kind: NodeType) {
    exists m :: LatestCreation(channel, entity, document, m) && KindOf(m.node) == kind
  }

  // Every type the entity was created with in the document was also given to it at its latest time there.
  ghost predicate LatestHasAllKinds(channel: set<Message>, entity: Id, document: Id) {
    forall m :: m in channel && Creates(m, entity, document) ==> LatestKind(channel, entity, document, KindOf(m.node))
  }

  function CreationRow(m: Message): Row<(Id, Id), NodeType>
    requires m.CreateNode?
  {
    Row((m.node.id, m.document), m.time, false, KindOf(m.node))
  }

  // The document rows of a settled site are those of the creations in the channel.
  lemma CreationIsLogged(s: System, i: nat, m: Message)
    requires Settled(s) && i < |s.sites| && m in s.channel && m.CreateNode?
    ensures CreationRow(m) in Log(s.sites[i].history, DocumentRows)
  {
    var a := Create(m.node, m.document, m.time);
    assert a in Processed(m) && CreationRow(m) in DocumentRows(a);
    LogRows(s.sites[i].history, DocumentRows, CreationRow(m));
  }

  lemma LoggedIsCreation(s: System, i: nat, row: Row<(Id, Id), NodeType>) returns (m: Message)
    requires Invariant(s) && i < |s.sites| && row in Log(s.sites[i].history, DocumentRows)
    ensures m in s.channel && m.CreateNode? && row == CreationRow(m)
  {
    hide Sound, Log;
    LogRows(s.sites[i].history, DocumentRows, row);
    var a :| a in s.sites[i].history && row in DocumentRows(a);
    assert a.Create? && Shared(s.channel, a);
    m :| m in s.channel && a in Processed(m);
  }

  lemma LatestIsTop(s: System, i: nat, entity: Id, document: Id, kind: NodeType)
    requires Invariant(s) && Settled(s) && i < |s.sites|
    ensures LatestKind(s.channel, entity, document, kind) <==>
            HasTopValue(Log(s.sites[i].history, DocumentRows), (entity, document), kind)
  {
    hide Invariant, Settled, Log;
    var log, key := Log(s.sites[i].history, DocumentRows), (entity, document);
    if m :| LatestCreation(s.channel, entity, document, m) && KindOf(m.node) == kind {
      CreationIsLogged(s, i, m);
      forall row | row in log && Live(row, key) ensures row.time <= m.time {
        var other := LoggedIsCreation(s, i, row);
      }
      assert LiveTop(log, key, CreationRow(m));
    }
    if top :| LiveTop(log, key, top) && top.value == kind {
      var m := LoggedIsCreation(s, i, top);
      forall other | other in s.channel && Creates(other, entity, document) ensures other.time <= m.time {
        CreationIsLogged(s, i, other);
        assert Live(CreationRow(other), key);
      }
      assert LatestCreation(s.channel, entity, document, m);
    }
  }

  lemma LatestIsTopForAll(s: System, i: nat, entity: Id, document: Id)
    requires Invariant(s) && Settled(s) && i < |s.sites|
    ensures LatestHasAllKinds(s.channel, entity, document) <==>
            TopHasAllValues(Log(s.sites[i].history, DocumentRows), (entity, document))
  {
    hide Invariant, Settled, Log, LatestKind, HasTopValue;
    var log, key := Log(s.sites[i].history, DocumentRows), (entity, document);
    if LatestHasAllKinds(s.channel, entity, document) {
      forall row | row in log && Live(row, key) ensures HasTopValue(log, key, row.value) {
        var m := LoggedIsCreation(s, i, row);
        LatestIsTop(s, i, entity, document, row.value);
      }
    }
    if TopHasAllValues(log, key) {
      forall m | m in s.channel && Creates(m, entity, document)
        ensures LatestKind(s.channel, entity, document, KindOf(m.node))
      {
        CreationIsLogged(s, i, m);
        assert Live(CreationRow(m), key);
        LatestIsTop(s, i, entity, document, KindOf(m.node));
      }
    }
  }

  // Two sites list an entity of a document with the same types.
  ghost predicate SameKinds(s: System, i: nat, j: nat, entity: Id, document: Id)
    requires i < |s.sites| && j < |s.sites|
  {
    SameValues(s.sites[i].tables.document, s.sites[j].tables.document, (entity, document))
  }

  /** Settled sites list the same types for an entity that was given all its types at its latest creation. */
  lemma KindsAgree(s: System, i: nat, j: nat, entity: Id, document: Id)
    requires Invariant(s) && Settled(s) && i < |s.sites| && j < |s.sites|
    requires LatestHasAllKinds(s.channel, entity, document)
    ensures SameKinds(s, i, j, entity, document)
  {
    hide Settled, Log, Replay, TopHasAllValues, LatestHasAllKinds;
    PublicTables();
    SettledLogs(s, i, j, DocumentRows);
    LatestIsTopForAll(s, i, entity, document);
    TopValuesAgree(CollectTombstones, Log(s.sites[i].history, DocumentRows), Log(s.sites[j].history, DocumentRows),
                   (entity, document));
  }

  // ---------- continuing a run ----------

  lemma RunStep(n: nat, steps: seq<Step>, step: Step)
    requires Run(n, steps).Some? && Enabled(Run(n, steps).value, step)
    ensures Run(n, steps + [step]) == Some(Next(Run(n, steps).value, step))
  {
    hide Next, Enabled;
    assert (steps + [step])[..|steps|] == steps;
  }

  predicate Deliveries(steps: seq<Step>) {
    forall i :: 0 <= i < |steps| ==> steps[i].Deliver?
  }

  lemma DeliveryKeepsSettled(s: System, i: nat, m: Message)
    requires Settled(s) && i < |s.sites| && m in s.channel
    ensures Settled(Next(s, Deliver(i, m)))
  {
    hide Processed, Applied;
    DeliveredHistory(s, i, m);
  }

  // Delivering messages again leaves a settled state settled, with the same channel.
  lemma {:induction false} DeliveriesKeepSettled(n: nat, steps: seq<Step>, more: seq<Step>)
    requires Run(n, steps + more).Some? && Constructive(steps) && Deliveries(more)
    requires Run(n, steps).Some? && Settled(Run(n, steps).value)
    ensures Constructive(steps + more)
    ensures Settled(Run(n, steps + more).value) && Run(n, steps + more).value.channel == Run(n, steps).value.channel
    decreases |more|
  {
    hide Settled, Processed, Sent, Applied;
    if more == [] {
      assert steps + more == steps;
    } else {
      var k := |more| - 1;
      assert (steps + more)[..|steps + more| - 1] == steps + more[..k];
      DeliveriesKeepSettled(n, steps, more[..k]);
      DeliveryKeepsSettled(Run(n, steps + more[..k]).value, more[k].site, more[k].message);
    }
  }

  lemma SameTopValues(a: seq<Row<(Id, Id), NodeType>>, b: seq<Row<(Id, Id), NodeType>>, key: (Id, Id), kind: NodeType)
    requires SameRows(a, b)
    ensures HasTopValue(a, key, kind) <==> HasTopValue(b, key, kind)
  {
    SameOperationsSameTop(a, b, key);
  }

  lemma DeliveredRow(s: System, i: nat, m: Message)
    requires Sound(s) && i < |s.sites| && m in s.channel && m.CreateNode?
    ensures Sound(Next(s, Deliver(i, m)))
    ensures Next(s, Deliver(i, m)).sites[i].tables.document ==
            Replay(CollectTombstones, Log(s.sites[i].history, DocumentRows) + [CreationRow(m)])
  {
    hide Replay, Applied;
    StepKeepsSound(s, Deliver(i, m));
    DeliveredHistory(s, i, m);
    var (h, a) := (s.sites[i].history, Create(m.node, m.document, m.time));
    assert Processed(m) == [a];
    assert (h + [a])[..|h|] == h;
  }

  lemma TwoDeliveries(n: nat, steps: seq<Step>, i: nat, m: Message, j: nat, k: Message)
    requires Run(n, steps).Some? && Sound(Run(n, steps).value) && i < n && j < n && i != j
    requires |Run(n, steps).value.sites| == n
    requires m in Run(n, steps).value.channel && m.CreateNode? && k in Run(n, steps).value.channel && k.CreateNode?
    ensures var s, after := Run(n, steps).value, Run(n, steps + [Deliver(i, m), Deliver(j, k)]);
            after.Some? && |after.value.sites| == n &&
            after.value.sites[i].tables.document == Replay(CollectTombstones, Log(s.sites[i].history, DocumentRows) + [CreationRow(m)]) &&
            after.value.sites[j].tables.document == Replay(CollectTombstones, Log(s.sites[j].history, DocumentRows) + [CreationRow(k)])
  {
    hide Run, Sound, Replay, Applied;
    var s := Run(n, steps).value;
    var first, second := Deliver(i, m), Deliver(j, k);
    RunStep(n, steps, first);
    var between := Next(s, first);
    RunStep(n, steps + [first], second);
    assert steps + [first] + [second] == steps + [first, second];
    DeliveredRow(s, i, m);
    DeliveredRow(between, j, k);
  }

  // When some type is not among the latest, redelivery can make two sites disagree.
  lemma SomeRedeliveryDiffers(n: nat, steps: seq<Step>, i: nat, j: nat, entity: Id, document: Id) returns (more: seq<Step>)
    requires Run(n, steps).Some? && Constructive(steps) && i < n && j < n && i != j
    requires Settled(Run(n, steps).value)
    requires !LatestHasAllKinds(Run(n, steps).value.channel, entity, document)
    ensures Deliveries(more) && Run(n, steps + more).Some? && |Run(n, steps + more).value.sites| == n
    ensures !SameKinds(Run(n, steps + more).value, i, j, entity, document)
  {
    hide Run, Invariant, Sound, Settled, Constructive, Log, Replay, HasTopValue, LatestHasAllKinds, Next, HasValue;
    RunKeepsInvariant(n, steps);
    RunIsSound(n, steps);
    var s := Run(n, steps).value;
    var key, log, other := (entity, document), Log(s.sites[i].history, DocumentRows), Log(s.sites[j].history, DocumentRows);
    LatestIsTopForAll(s, i, entity, document);
    var row :| row in log && Live(row, key) && !HasTopValue(log, key, row.value);
    var m := LoggedIsCreation(s, i, row);
    PublicTables();
    SettledLogs(s, i, j, DocumentRows);
    var top := NewestOfLive(other, key);
    var k := LoggedIsCreation(s, j, top);
    SameTopValues(log, other, key, row.value);
    RepeatedLast(CollectTombstones, log, key, row);
    RepeatedLast(CollectTombstones, other, key, top);
    more := [Deliver(i, m), Deliver(j, k)];
    TwoDeliveries(n, steps, i, m, j, k);
    var t := Run(n, steps + more).value;
    assert HasValue(t.sites[i].tables.document, key, row.value);
    assert !HasValue(t.sites[j].tables.document, key, row.value);
  }

  /** The exact condition: from a settled state no redelivery of messages can make two sites list an entity with
      different types if and only if every type it was created with was also given to it at its latest time. */
  lemma KindsAgreeIff(n: nat, steps: seq<Step>, i: nat, j: nat, entity: Id, document: Id)
    requires Run(n, steps).Some? && Constructive(steps) && i < n && j < n && i != j
    requires Settled(Run(n, steps).value)
    ensures (forall more :: Deliveries(more) && Run(n, steps + more).Some? ==>
               |Run(n, steps + more).value.sites| == n && SameKinds(Run(n, steps + more).value, i, j, entity, document)) <==>
            LatestHasAllKinds(Run(n, steps).value.channel, entity, document)
  {
    hide Run, Invariant, Settled, LatestHasAllKinds, SameKinds, Constructive, Deliveries;
    if LatestHasAllKinds(Run(n, steps).value.channel, entity, document) {
      forall more | Deliveries(more) && Run(n, steps + more).Some?
        ensures |Run(n, steps + more).value.sites| == n && SameKinds(Run(n, steps + more).value, i, j, entity, document)
      {
        DeliveriesKeepSettled(n, steps, more);
        RunKeepsInvariant(n, steps + more);
        KindsAgree(Run(n, steps + more).value, i, j, entity, document);
      }
    } else {
      var more := SomeRedeliveryDiffers(n, steps, i, j, entity, document);
    }
  }

  // ---------- what does not converge ----------

  lemma RunStart(n: nat, steps: seq<Step>)
    ensures Run(n, steps[..0]) == Some(Initial(n))
  {
  }

  lemma RunPrefix(n: nat, steps: seq<Step>, k: nat)
    requires k < |steps| && Run(n, steps[..k]).Some? && Enabled(Run(n, steps[..k]).value, steps[k])
    ensures Run(n, steps[..k + 1]) == Some(Next(Run(n, steps[..k]).value, steps[k]))
  {
    hide Next, Enabled;
    assert steps[..k + 1][..k] == steps[..k];
  }

  // Two sites act once each at the same time, and then each receives the other's message.
  function Crossing(a: Action, b: Action, m: Message, k: Message): seq<Step> {
    [Local(0, a), Local(1, b), Deliver(0, k), Deliver(1, m)]
  }

  lemma CrossingRun(a: Action, b: Action, m: Message, k: Message)
    requires Sent(a) == [m] && Sent(b) == [k]
    ensures var run := Run(2, Crossing(a, b, m, k));
            run.Some? && |run.value.sites| == 2 && run.value.channel == {m, k} &&
            run.value.sites[0].history == [a] + Processed(k) && run.value.sites[1].history == [b] + Processed(m)
  {
    hide Run, Applied, Processed, Sent, ActAll;
    var steps := Crossing(a, b, m, k);
    RunStart(2, steps);
    RunPrefix(2, steps, 0);
    RunPrefix(2, steps, 1);
    var s := Run(2, steps[..2]).value;
    assert s.channel == {m, k} && s.sites[0].history == [a] && s.sites[1].history == [b];
    RunPrefix(2, steps, 2);
    DeliveredHistory(s, 0, k);
    RunPrefix(2, steps, 3);
    DeliveredHistory(Run(2, steps[..3]).value, 1, m);
    assert steps[..4] == steps;
  }

  lemma LogOfTwo<K, V>(a: Action, b: Action, rowsOf: Action -> seq<Row<K, V>>)
    ensures Log([a] + [b], rowsOf) == rowsOf(a) + rowsOf(b)
  {
    assert ([a] + [b])[..1] == [a] && [a][..0] == [];
    assert Log([], rowsOf) == [];
    assert Log([a], rowsOf) == rowsOf(a);
  }

  // One identifier created as a sphere at time 1 and as a set operation at time 2.
  const SPHERE_FIRST := Create(Sphere(0, Point(0.0, 0.0, 0.0), 1.0), 0, 1)
  const OPERATION_SECOND := Create(SetOp(0, Union), 0, 2)

  /** Sites may settle on different types: where the later creation arrives last it collects the first, and where it
      arrives first both stay listed. */
  lemma KindsMayDiffer()
    ensures var run := Run(2, Crossing(SPHERE_FIRST, OPERATION_SECOND, Sent(SPHERE_FIRST)[0], Sent(OPERATION_SECOND)[0]));
            run.Some? && |run.value.sites| == 2 && Settled(run.value) &&
            !InDocument(run.value.sites[0].tables.document, 0, 0, SphereNode) &&
            InDocument(run.value.sites[1].tables.document, 0, 0, SphereNode)
  {
    hide Run, Replay;
    var a, b, m, k := SPHERE_FIRST, OPERATION_SECOND, Sent(SPHERE_FIRST)[0], Sent(OPERATION_SECOND)[0];
    var steps := Crossing(a, b, m, k);
    CrossingRun(a, b, m, k);
    assert Processed(m) == [a] && Processed(k) == [b];
    var log := [DocumentRows(a)[0], DocumentRows(b)[0]];
    var other := [log[1], log[0]];
    LogOfTwo(a, b, DocumentRows);
    LogOfTwo(b, a, DocumentRows);
    assert DocumentRows(a) + DocumentRows(b) == log && DocumentRows(b) + DocumentRows(a) == other;
    KindsListed(2, steps, 0, 0, 0, SphereNode);
    KindsListed(2, steps, 1, 0, 0, SphereNode);
    assert log[0].time < log[1].time && Overtaken(log, 0);
    assert Stands(other, (0, 0), 1);
  }

  // The name actions a site performed itself.
  function OwnNames(steps: seq<Step>, i: nat): Attributes<string> {
    if steps == [] then []
    else
      var init, step := OwnNames(steps[..|steps| - 1], i), steps[|steps| - 1];
      if step.Local? && step.site == i then init + NameRows(step.action) else init
  }

  lemma NoName(s: System, m: Message, a: Action)
    requires Sound(s) && m in s.channel && a in Processed(m)
    ensures NameRows(a) == []
  {
    hide Processed;
    assert !Private(a);
  }

  /** Names are never sent: after every run, a site's names are those it set itself, whatever the other sites did. */
  lemma {:induction false} NamesStayLocal(n: nat, steps: seq<Step>, i: nat)
    requires Run(n, steps).Some? && i < n
    ensures var s := Run(n, steps).value;
            |s.sites| == n && Log(s.sites[i].history, NameRows) == OwnNames(steps, i) &&
            s.sites[i].tables.name == Replay(Collect, OwnNames(steps, i))
    decreases |steps|
  {
    hide Processed, Sent, Applied, NameRows, Private;
    RunIsSound(n, steps);
    if steps != [] {
      var k := |steps| - 1;
      NamesStayLocal(n, steps[..k], i);
      RunIsSound(n, steps[..k]);
      var before := Run(n, steps[..k]).value;
      var h := before.sites[i].history;
      match steps[k]
      case Local(x, a) =>
        assert (h + [a])[..|h|] == h;
      case Deliver(x, m) =>
        AtMostOne(m);
        if x == i && Processed(m) != [] {
          var a := Processed(m)[0];
          NoName(before, m, a);
          ActOnce(before.sites[i], Processed(m));
          assert (h + [a])[..|h|] == h;
        }
    }
  }

  // Whether the sender of a disconnection lists the edge afterwards: only when some row of it is not older and it was
  // listed already.
  lemma SenderAfter(t: seq<Row<(Id, Id), ()>>, key: (Id, Id), time: int)
    ensures Listed(Write(Collect, t, Row(key, time, true, ())), key) <==> Listed(t, key) && !AllOlder(t, key, time)
  {
    var op := Row(key, time, true, ());
    var after := Write(Collect, t, op);
    assert op in after;
    if row :| row in after && Live(row, key) && Newest(after, key, row.time) {
      RemainingRows(Collect, t, op, row);
      forall other | other in t && other.key == key ensures other.time <= row.time {
        RemainingRows(Collect, t, op, other);
      }
    }
    if Listed(t, key) && !AllOlder(t, key, time) {
      var row :| row in t && Live(row, key) && Newest(t, key, row.time);
      RemainingRows(Collect, t, op, row);
      forall other | other in after && other.key == key ensures other.time <= row.time {
        RemainingRows(Collect, t, op, other);
      }
    }
  }

  // Whether its receiver does: when nothing on the edge is newer, or it was listed already.
  lemma ReceiverAfter(t: seq<Row<(Id, Id), ()>>, key: (Id, Id), time: int)
    ensures Listed(Write(Collect, t, Row(key, time, false, ())), key) <==> Newest(t, key, time) || Listed(t, key)
  {
    var op := Row(key, time, false, ());
    var after := Write(Collect, t, op);
    assert op in after;
    forall row ensures row in after <==> row == op || (row in t && !Dropped(Collect, row, op)) {
      RemainingRows(Collect, t, op, row);
    }
    if Newest(t, key, time) {
      assert Newest(after, key, op.time);
    } else {
      var newer :| newer in t && newer.key == key && newer.time > time;
      if row :| row in after && Live(row, key) && Newest(after, key, row.time) {
        assert newer in after;
        assert Newest(t, key, row.time);
      }
      if row :| row in t && Live(row, key) && Newest(t, key, row.time) {
        assert row in after && Newest(after, key, row.time);
      }
    }
  }

  /** A disconnection is sent as an assertion. For all tables: what the sender and the receiver list afterwards, and so
      exactly when they differ. */
  lemma DisconnectionDivergesIff(sender: Tables, receiver: Tables, from: Id, to: Id, time: int)
    ensures var a, key := Disconnect(from, to, time), (from, to);
            |Sent(a)| == 1 && |Processed(Sent(a)[0])| == 1 &&
            var here, there := Applied(sender, a).edge, Applied(receiver, Processed(Sent(a)[0])[0]).edge;
            (Listed(here, key) <==> Listed(sender.edge, key) && !AllOlder(sender.edge, key, time)) &&
            (Listed(there, key) <==> Newest(receiver.edge, key, time) || Listed(receiver.edge, key)) &&
            ((Listed(here, key) <==> Listed(there, key)) <==>
             ((Listed(sender.edge, key) && !AllOlder(sender.edge, key, time)) <==>
              (Newest(receiver.edge, key, time) || Listed(receiver.edge, key))))
  {
    hide Write, Listed, Newest, AllOlder;
    OneRow(Collect, sender.edge, Row((from, to), time, true, ()));
    OneRow(Collect, receiver.edge, Row((from, to), time, false, ()));
    SenderAfter(sender.edge, (from, to), time);
    ReceiverAfter(receiver.edge, (from, to), time);
  }

  // The later of two operations on one edge decides.
  lemma LastEdgeRow(first: Row<(Id, Id), ()>, second: Row<(Id, Id), ()>)
    requires first.key == second.key && first.time < second.time
    ensures Listed(Replay(Collect, [first, second]), first.key) <==> !second.deleted
  {
    hide Replay;
    var log := [first, second];
    OrderedAnswers(Collect, log, first.key);
    assert log[0] in log && log[1] in log;
    if !second.deleted {
      assert Live(second, first.key) && Newest(log, first.key, second.time);
    }
  }

  const CONNECTION := Connect(0, 1, 1)
  const DISCONNECTION := Disconnect(0, 1, 2)

  // A site connects two nodes and disconnects them again; the other site receives both messages.
  function Reconnecting(): seq<Step> {
    [Local(0, CONNECTION), Local(0, DISCONNECTION), Deliver(1, Sent(CONNECTION)[0]), Deliver(1, Sent(DISCONNECTION)[0])]
  }

  lemma ReconnectingRun()
    ensures var run := Run(2, Reconnecting());
            run.Some? && |run.value.sites| == 2 &&
            run.value.sites[0].history == [CONNECTION] + [DISCONNECTION] &&
            run.value.sites[1].history == [CONNECTION] + [Connect(0, 1, 2)]
  {
    hide Run, Applied, ActAll;
    var a, b, m, k := CONNECTION, DISCONNECTION, Sent(CONNECTION)[0], Sent(DISCONNECTION)[0];
    var steps := Reconnecting();
    RunStart(2, steps);
    RunPrefix(2, steps, 0);
    RunPrefix(2, steps, 1);
    var s := Run(2, steps[..2]).value;
    assert s.channel == {m, k} && s.sites[0].history == [a, b] && s.sites[1].history == [];
    RunPrefix(2, steps, 2);
    DeliveredHistory(s, 1, m);
    RunPrefix(2, steps, 3);
    DeliveredHistory(Run(2, steps[..3]).value, 1, k);
    assert steps[..4] == steps;
  }

  /** The run in which a disconnection unlists the edge at its sender and lists it at its receiver. */
  lemma DisconnectionDiverges()
    ensures var run := Run(2, Reconnecting());
            run.Some? && |run.value.sites| == 2 &&
            !Listed(run.value.sites[0].tables.edge, (0, 1)) && Listed(run.value.sites[1].tables.edge, (0, 1))
  {
    hide Run, Replay, Listed, Log, Reconnecting;
    ReconnectingRun();
    RunIsSound(2, Reconnecting());
    LogOfTwo(CONNECTION, DISCONNECTION, EdgeRows);
    LogOfTwo(CONNECTION, Connect(0, 1, 2), EdgeRows);
    var (first, here, there) := (Row((0, 1), 1, false, ()), Row((0, 1), 2, true, ()), Row((0, 1), 2, false, ()));
    assert EdgeRows(CONNECTION) + EdgeRows(DISCONNECTION) == [first, here];
    assert EdgeRows(CONNECTION) + EdgeRows(Connect(0, 1, 2)) == [first, there];
    LastEdgeRow(first, here);
    LastEdgeRow(first, there);
  }
}
