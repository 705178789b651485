// Tables of timestamped rows: every write collects garbage and then adds one row, live or a tombstone.
module LastWriterWins {
  import opened Sequences
  datatype Row<K, V> = Row(key: K, time: int, deleted: bool, value: V)

  // Which rows a write deletes before it inserts its own.
  datatype Rule =
    | KeepAll            // the radius table: its collection statement is built but never run
    | Collect            // attributes and edges: older rows of the key, and older tombstones of any key
    | CollectTombstones  // documents: older rows of the key, and every tombstone whatever its time

  predicate Dropped<K(==), V>(rule: Rule, row: Row<K, V>, op: Row<K, V>) {
    match rule
    case KeepAll => false
    case Collect => row.time < op.time && (row.key == op.key || row.deleted)
    case CollectTombstones => (row.key == op.key && row.time < op.time) || row.deleted
  }

  function Remaining<K(==), V>(rule: Rule, table: seq<Row<K, V>>, op: Row<K, V>): seq<Row<K, V>> {
    if table == [] then []
    else
      var init, last := Remaining(rule, table[..|table| - 1], op), table[|table| - 1];
      if Dropped(rule, last, op) then init else init + [last]
  }

  // One transaction.
  function Write<K(==), V>(rule: Rule, table: seq<Row<K, V>>, op: Row<K, V>): seq<Row<K, V>> {
    Remaining(rule, table, op) + [op]
  }

  // The table after a log of writes.
  function Replay<K(==), V>(rule: Rule, log: seq<Row<K, V>>): seq<Row<K, V>> {
    if log == [] then [] else Write(rule, Replay(rule, log[..|log| - 1]), log[|log| - 1])
  }

  // ---------- what one write does, row by row ----------

  // The new row comes last; of the others, the older rows of its key and the older tombstones are gone, and all the
  // rest are there as often as before and in the same order.
  ghost predicate Collected<K(!new), V(!new)>(before: seq<Row<K, V>>, after: seq<Row<K, V>>, op: Row<K, V>) {
    && |after| > 0 && after[|after| - 1] == op
    && Subsequence(after[..|after| - 1], before)
    && forall row :: multiset(after[..|after| - 1])[row] ==
         if row.time < op.time && (row.key == op.key || row.deleted) then 0 else multiset(before)[row]
  }

  // The same, but every tombstone is gone.
  ghost predicate CollectedTombstones<K(!new), V(!new)>(before: seq<Row<K, V>>, after: seq<Row<K, V>>, op: Row<K, V>) {
    && |after| > 0 && after[|after| - 1] == op
    && Subsequence(after[..|after| - 1], before)
    && forall row :: multiset(after[..|after| - 1])[row] ==
         if (row.time < op.time && row.key == op.key) || row.deleted then 0 else multiset(before)[row]
  }

  lemma {:induction false} RemainingCounts<K(!new), V(!new)>(rule: Rule, table: seq<Row<K, V>>, op: Row<K, V>)
    ensures forall row :: multiset(Remaining(rule, table, op))[row] == if Dropped(rule, row, op) then 0 else multiset(table)[row]
    ensures Subsequence(Remaining(rule, table, op), table)
    decreases |table|
  {
    hide Dropped;
    if table == [] {
      EmptySubsequence(table);
    } else {
      var n := |table| - 1;
      assert table == table[..n] + [table[n]];
      RemainingCounts(rule, table[..n], op);
      OneMoreElement(Remaining(rule, table[..n], op), table[..n], table[n]);
    }
  }

  /** A write deletes exactly what its rule says, and nothing else. */
  lemma WriteCollects<K(!new), V(!new)>(table: seq<Row<K, V>>, op: Row<K, V>)
    ensures Collected(table, Write(Collect, table, op), op)
    ensures CollectedTombstones(table, Write(CollectTombstones, table, op), op)
  {
    RemainingCounts(Collect, table, op);
    RemainingCounts(CollectTombstones, table, op);
    assert (Remaining(Collect, table, op) + [op])[..|Remaining(Collect, table, op)|] == Remaining(Collect, table, op);
    assert (Remaining(CollectTombstones, table, op) + [op])[..|Remaining(CollectTombstones, table, op)|] ==
           Remaining(CollectTombstones, table, op);
  }

  // ---------- the answers ----------

  predicate Live<K(==), V>(row: Row<K, V>, key: K) {
    row.key == key && !row.deleted
  }

  // No row of the key is newer.
  ghost predicate Newest<K, V>(rows: seq<Row<K, V>>, key: K, time: int) {
    forall row :: row in rows && row.key == key ==> row.time <= time
  }

  // Last writer wins, and a live row wins a tie: the key is live when a live row stands at its greatest timestamp.
  ghost predicate Listed<K, V>(rows: seq<Row<K, V>>, key: K) {
    exists row :: row in rows && Live(row, key) && Newest(rows, key, row.time)
  }

  ghost predicate HasLive<K, V>(rows: seq<Row<K, V>>, key: K) {
    exists row :: row in rows && Live(row, key)
  }

  // A live row with no newer live row of its key: what the attribute reads look at.
  ghost predicate LiveTop<K, V>(rows: seq<Row<K, V>>, key: K, row: Row<K, V>) {
    row in rows && Live(row, key) && forall other :: other in rows && Live(other, key) ==> other.time <= row.time
  }

  // ---------- survivors: what a replayed table holds ----------

  predicate DroppedLater<K(==), V>(rule: Rule, log: seq<Row<K, V>>, i: nat)
    requires i < |log|
  {
    exists j :: i < j < |log| && Dropped(rule, log[i], log[j])
  }

  lemma {:induction false} RemainingRows<K, V>(rule: Rule, table: seq<Row<K, V>>, op: Row<K, V>, row: Row<K, V>)
    ensures row in Remaining(rule, table, op) <==> row in table && !Dropped(rule, row, op)
    decreases |table|
  {
    if table != [] {
      var n := |table| - 1;
      assert table == table[..n] + [table[n]];
      RemainingRows(rule, table[..n], op, row);
    }
  }

  // An operation is deleted later when an operation but the last deletes it, or the last one does.
  lemma DroppedLast<K, V>(rule: Rule, log: seq<Row<K, V>>, i: nat)
    requires i < |log| - 1
    ensures DroppedLater(rule, log, i) <==>
            DroppedLater(rule, log[..|log| - 1], i) || Dropped(rule, log[i], log[|log| - 1])
  {
    hide Dropped;
    var init := log[..|log| - 1];
    assert init[i] == log[i];
    if j :| i < j < |log| && Dropped(rule, log[i], log[j]) {
      assert j < |log| - 1 ==> Dropped(rule, init[i], init[j]);
    }
    if j :| i < j < |init| && Dropped(rule, init[i], init[j]) {
      assert Dropped(rule, log[i], log[j]);
    }
  }

  /** A table holds exactly the operations of its log that no later operation deletes. */
  lemma {:induction false} Survivors<K, V>(rule: Rule, log: seq<Row<K, V>>, row: Row<K, V>)
    ensures row in Replay(rule, log) <==> exists i :: 0 <= i < |log| && log[i] == row && !DroppedLater(rule, log, i)
    decreases |log|
  {
    if log != [] {
      var n := |log| - 1;
      var init := log[..n];
      RemainingRows(rule, Replay(rule, init), log[n], row);
      Survivors(rule, init, row);
      assert !DroppedLater(rule, log, n);
      hide DroppedLater, Dropped;
      if row in Replay(rule, init) && !Dropped(rule, row, log[n]) {
        var i :| 0 <= i < n && init[i] == row && !DroppedLater(rule, init, i);
        DroppedLast(rule, log, i);
        assert log[i] == row;
      }
      if i :| 0 <= i < |log| && log[i] == row && !DroppedLater(rule, log, i) {
        if i < n {
          DroppedLast(rule, log, i);
          assert init[i] == row;
        }
      }
    }
  }

  lemma TableWithinLog<K, V>(rule: Rule, log: seq<Row<K, V>>, row: Row<K, V>)
    requires row in Replay(rule, log)
    ensures row in log
  {
    Survivors(rule, log, row);
  }

  // A live operation at its key's greatest timestamp is never collected, in whatever order operations arrive.
  lemma NewestLiveSurvives<K, V>(rule: Rule, log: seq<Row<K, V>>, key: K, row: Row<K, V>)
    requires row in log && Live(row, key) && Newest(log, key, row.time)
    ensures row in Replay(rule, log)
  {
    var i :| 0 <= i < |log| && log[i] == row;
    assert !DroppedLater(rule, log, i);
    Survivors(rule, log, row);
  }

  /** Whatever the order of delivery, a key that the log makes live is listed. */
  lemma LiveIsListed<K, V>(rule: Rule, log: seq<Row<K, V>>, key: K)
    requires Listed(log, key)
    ensures Listed(Replay(rule, log), key)
  {
    var row :| row in log && Live(row, key) && Newest(log, key, row.time);
    NewestLiveSurvives(rule, log, key, row);
    forall other | other in Replay(rule, log) && other.key == key ensures other.time <= row.time {
      TableWithinLog(rule, log, other);
    }
  }

  // ---------- ordered delivery ----------

  // Operations on each single key arrive in nondecreasing time; keys may interleave in any way.
  predicate InOrder<K(==), V>(log: seq<Row<K, V>>) {
    forall i, j :: 0 <= i < j < |log| && log[i].key == log[j].key ==> log[i].time <= log[j].time
  }

  // In an ordered log a live row that survives stands at its key's greatest timestamp.
  lemma OrderedSurvivorIsNewest<K, V>(rule: Rule, log: seq<Row<K, V>>, key: K, row: Row<K, V>)
    requires rule != KeepAll && InOrder(log) && row in Replay(rule, log) && Live(row, key)
    ensures row in log && Newest(log, key, row.time)
  {
    Survivors(rule, log, row);
    var i :| 0 <= i < |log| && log[i] == row && !DroppedLater(rule, log, i);
    forall other | other in log && other.key == key ensures other.time <= row.time {
      var j :| 0 <= j < |log| && log[j] == other;
      if j > i {
        assert !Dropped(rule, log[i], log[j]);
      }
    }
  }

  /** For ordered logs the live rows of a collected table are exactly the live operations at the key's greatest
      timestamp, for every rule that collects. */
  lemma OrderedTableIsLog<K, V>(rule: Rule, log: seq<Row<K, V>>, key: K, row: Row<K, V>)
    requires rule != KeepAll && InOrder(log)
    ensures row in Replay(rule, log) && Live(row, key) <==> row in log && Live(row, key) && Newest(log, key, row.time)
  {
    if row in Replay(rule, log) && Live(row, key) {
      OrderedSurvivorIsNewest(rule, log, key, row);
    }
    if row in log && Live(row, key) && Newest(log, key, row.time) {
      NewestLiveSurvives(rule, log, key, row);
    }
  }

  /** So the collected table answers as the whole log does: for the edge read, for the document read, and for the
      attribute reads, which look at the latest live rows only. */
  lemma OrderedAnswers<K(!new), V(!new)>(rule: Rule, log: seq<Row<K, V>>, key: K)
    requires rule != KeepAll && InOrder(log)
    ensures Listed(Replay(rule, log), key) <==> Listed(log, key)
    ensures HasLive(Replay(rule, log), key) <==> Listed(log, key)
    ensures forall row :: LiveTop(Replay(rule, log), key, row) <==> row in log && Live(row, key) && Newest(log, key, row.time)
  {
    var table := Replay(rule, log);
    if row :| row in table && Live(row, key) {
      OrderedSurvivorIsNewest(rule, log, key, row);
    }
    if Listed(log, key) {
      LiveIsListed(rule, log, key);
    }
    forall row
      ensures LiveTop(table, key, row) <==> row in log && Live(row, key) && Newest(log, key, row.time)
    {
      OrderedTableIsLog(rule, log, key, row);
      forall other | other in table && Live(other, key) ensures other in log && Newest(log, key, other.time) {
        OrderedSurvivorIsNewest(rule, log, key, other);
      }
    }
  }

  // ---------- any delivery: exactly when the answer is wrong ----------

  predicate Overtaken<K(==), V>(log: seq<Row<K, V>>, i: nat)
    requires i < |log|
  {
    exists j :: i < j < |log| && log[j].key == log[i].key && log[i].time < log[j].time
  }

  predicate FollowedByNewer<K(==), V>(log: seq<Row<K, V>>, i: nat)
    requires i < |log|
  {
    exists j :: i < j < |log| && log[i].time < log[j].time
  }

  // A live operation that no newer operation of its key follows.
  ghost predicate Stands<K, V>(log: seq<Row<K, V>>, key: K, i: nat)
    requires i < |log|
  {
    Live(log[i], key) && !Overtaken(log, i)
  }

  ghost predicate Standing<K, V>(log: seq<Row<K, V>>, key: K) {
    exists i :: 0 <= i < |log| && Stands(log, key, i)
  }

  // Such an operation whose newer tombstones, all of them delivered before it, have each been followed by something
  // newer: then none of them is left to hide it.
  ghost predicate Resurrects<K, V>(log: seq<Row<K, V>>, key: K, i: nat)
    requires i < |log|
  {
    && Stands(log, key, i)
    && forall j {:trigger log[j]} :: 0 <= j < |log| && log[j].key == key && log[j].deleted && log[i].time < log[j].time ==>
         FollowedByNewer(log, j)
  }

  ghost predicate Resurrected<K, V>(log: seq<Row<K, V>>, key: K) {
    exists i :: 0 <= i < |log| && Resurrects(log, key, i)
  }

  lemma CollectedWhen<K, V>(rule: Rule, log: seq<Row<K, V>>, i: nat)
    requires rule != KeepAll && i < |log|
    ensures !log[i].deleted ==> (DroppedLater(rule, log, i) <==> Overtaken(log, i))
    ensures log[i].deleted && rule == Collect ==> (DroppedLater(rule, log, i) <==> FollowedByNewer(log, i))
  {
    if j :| i < j < |log| && Dropped(rule, log[i], log[j]) {
    }
    if j :| i < j < |log| && log[j].key == log[i].key && log[i].time < log[j].time {
      assert Dropped(rule, log[i], log[j]);
    }
    if rule == Collect && log[i].deleted {
      if j :| i < j < |log| && log[i].time < log[j].time {
        assert Dropped(rule, log[i], log[j]);
      }
    }
  }

  lemma {:induction false} NewestOfLive<K, V>(rows: seq<Row<K, V>>, key: K) returns (top: Row<K, V>)
    requires HasLive(rows, key)
    ensures LiveTop(rows, key, top)
    decreases |rows|
  {
    var n := |rows| - 1;
    var init, last := rows[..n], rows[n];
    assert rows == init + [last];
    if HasLive(init, key) {
      top := NewestOfLive(init, key);
      if Live(last, key) && last.time > top.time {
        top := last;
      }
    } else {
      top := last;
    }
  }

  /** The document read, for every log: an entity is listed when a live operation stands un-overtaken. */
  lemma StandingIsLive<K, V>(rule: Rule, log: seq<Row<K, V>>, key: K)
    requires rule != KeepAll
    ensures HasLive(Replay(rule, log), key) <==> Standing(log, key)
  {
    if row :| row in Replay(rule, log) && Live(row, key) {
      Survivors(rule, log, row);
      var i :| 0 <= i < |log| && log[i] == row && !DroppedLater(rule, log, i);
      CollectedWhen(rule, log, i);
      assert Stands(log, key, i);
    }
    if i :| 0 <= i < |log| && Stands(log, key, i) {
      CollectedWhen(rule, log, i);
      Survivors(rule, log, log[i]);
    }
  }

  lemma ListedIsResurrected<K, V>(log: seq<Row<K, V>>, key: K)
    requires Listed(Replay(Collect, log), key)
    ensures Resurrected(log, key)
  {
    var table := Replay(Collect, log);
    var row :| row in table && Live(row, key) && Newest(table, key, row.time);
    Survivors(Collect, log, row);
    var i :| 0 <= i < |log| && log[i] == row && !DroppedLater(Collect, log, i);
    CollectedWhen(Collect, log, i);
    forall j | 0 <= j < |log| && log[j].key == key && log[j].deleted && log[i].time < log[j].time
      ensures FollowedByNewer(log, j)
    {
      CollectedWhen(Collect, log, j);
      Survivors(Collect, log, log[j]);
    }
    assert Resurrects(log, key, i);
  }

  lemma ResurrectedIsListed<K, V>(log: seq<Row<K, V>>, key: K)
    requires Resurrected(log, key)
    ensures Listed(Replay(Collect, log), key)
  {
    var table := Replay(Collect, log);
    var i :| 0 <= i < |log| && Resurrects(log, key, i);
    assert Stands(log, key, i);
    CollectedWhen(Collect, log, i);
    Survivors(Collect, log, log[i]);
    var top := NewestOfLive(table, key);
    forall other | other in table && other.key == key ensures other.time <= top.time {
      if other.deleted && other.time > top.time {
        Survivors(Collect, log, other);
        var j :| 0 <= j < |log| && log[j] == other && !DroppedLater(Collect, log, j);
        CollectedWhen(Collect, log, j);
      }
    }
  }

  /** The edge read answers differently from the whole log exactly when the log does not make the edge live but one
      of its operations was delivered late enough to come back; it never drops an edge the log makes live. */
  lemma EdgeAnswerWrongWhen<K, V>(log: seq<Row<K, V>>, key: K)
    ensures Listed(log, key) ==> Listed(Replay(Collect, log), key)
    ensures (Listed(Replay(Collect, log), key) <==> Listed(log, key)) <==> (Resurrected(log, key) ==> Listed(log, key))
  {
    if Listed(log, key) {
      LiveIsListed(Collect, log, key);
    }
    if Listed(Replay(Collect, log), key) {
      ListedIsResurrected(log, key);
    }
    if Resurrected(log, key) {
      ResurrectedIsListed(log, key);
    }
  }

  /** The same for documents, whose tombstones are all dropped by the next write. */
  lemma DocumentAnswerWrongWhen<K, V>(log: seq<Row<K, V>>, key: K)
    ensures Listed(log, key) ==> HasLive(Replay(CollectTombstones, log), key)
    ensures (HasLive(Replay(CollectTombstones, log), key) <==> Listed(log, key)) <==>
            (Standing(log, key) ==> Listed(log, key))
  {
    StandingIsLive(CollectTombstones, log, key);
    if Listed(log, key) {
      LiveIsListed(CollectTombstones, log, key);
    }
  }

  // A tombstone at time 3 is collected by a write on another key at time 5; the connection of time 2 then arrives.
  lemma LateConnectionComesBack()
    ensures var log := [Row(0, 3, true, ()), Row(1, 5, false, ()), Row(0, 2, false, ())];
            !Listed(log, 0) && Listed(Replay(Collect, log), 0)
  {
    var log := [Row(0, 3, true, ()), Row(1, 5, false, ()), Row(0, 2, false, ())];
    forall row | row in log && Live(row, 0) ensures !Newest(log, 0, row.time) {
      assert log[0] in log;
    }
    assert FollowedByNewer(log, 0) by { assert log[0].time < log[1].time; }
    assert Resurrects(log, 0, 2);
    ResurrectedIsListed(log, 0);
  }

  // In the document table any later write collects the tombstone, so the late creation comes back at once.
  lemma LateCreationComesBack()
    ensures var log := [Row(0, 3, true, ()), Row(0, 2, false, ())];
            !Listed(log, 0) && HasLive(Replay(CollectTombstones, log), 0)
  {
    var log := [Row(0, 3, true, ()), Row(0, 2, false, ())];
    forall row | row in log && Live(row, 0) ensures !Newest(log, 0, row.time) {
      assert log[0] in log;
    }
    assert Stands(log, 0, 1);
    StandingIsLive(CollectTombstones, log, 0);
  }

  // ---------- the values of a key's live rows ----------

  ghost predicate HasValue<K, V>(rows: seq<Row<K, V>>, key: K, value: V) {
    exists row :: row in rows && Live(row, key) && row.value == value
  }

  /** The values that a table lists for a key, for every log: those of the live operations that stand. */
  lemma ListedValues<K, V>(rule: Rule, log: seq<Row<K, V>>, key: K, value: V)
    requires rule != KeepAll
    ensures HasValue(Replay(rule, log), key, value) <==>
            exists i :: 0 <= i < |log| && Stands(log, key, i) && log[i].value == value
  {
    if row :| row in Replay(rule, log) && Live(row, key) && row.value == value {
      Survivors(rule, log, row);
      var i :| 0 <= i < |log| && log[i] == row && !DroppedLater(rule, log, i);
      CollectedWhen(rule, log, i);
      assert Stands(log, key, i);
    }
    if i :| 0 <= i < |log| && Stands(log, key, i) && log[i].value == value {
      CollectedWhen(rule, log, i);
      Survivors(rule, log, log[i]);
    }
  }

  // The latest live rows of two logs with the same operations are the same.
  lemma SameOperationsSameTop<K(!new), V(!new)>(a: seq<Row<K, V>>, b: seq<Row<K, V>>, key: K)
    requires forall row :: row in a <==> row in b
    ensures forall row :: LiveTop(a, key, row) <==> LiveTop(b, key, row)
    ensures HasLive(a, key) <==> HasLive(b, key)
  {
  }

  ghost predicate HasTopValue<K(!new), V(!new)>(rows: seq<Row<K, V>>, key: K, value: V) {
    exists top :: LiveTop(rows, key, top) && top.value == value
  }

  // Every value written for the key is also written at the key's greatest time.
  ghost predicate TopHasAllValues<K(!new), V(!new)>(log: seq<Row<K, V>>, key: K) {
    forall row :: row in log && Live(row, key) ==> HasTopValue(log, key, row.value)
  }

  ghost predicate SameRows<K(!new), V(!new)>(a: seq<Row<K, V>>, b: seq<Row<K, V>>) {
    forall row :: row in a <==> row in b
  }

  ghost predicate SameValues<K, V(!new)>(a: seq<Row<K, V>>, b: seq<Row<K, V>>, key: K) {
    forall value :: HasValue(a, key, value) <==> HasValue(b, key, value)
  }

  // Then the table lists exactly the values of the log, whatever the order.
  lemma TopValueListed<K(!new), V(!new)>(rule: Rule, log: seq<Row<K, V>>, key: K, value: V)
    requires (forall row :: row in log ==> !row.deleted) && TopHasAllValues(log, key)
    ensures HasValue(Replay(rule, log), key, value) <==> HasValue(log, key, value)
  {
    hide Replay;
    if row :| row in Replay(rule, log) && Live(row, key) && row.value == value {
      TableWithinLog(rule, log, row);
    }
    if row :| row in log && Live(row, key) && row.value == value {
      assert HasTopValue(log, key, row.value);
      var top :| LiveTop(log, key, top) && top.value == row.value;
      NewestLiveSurvives(rule, log, key, top);
    }
  }

  lemma SameLogValues<K(!new), V(!new)>(a: seq<Row<K, V>>, b: seq<Row<K, V>>, key: K)
    requires SameRows(a, b)
    ensures SameValues(a, b, key)
    ensures TopHasAllValues(a, key) ==> TopHasAllValues(b, key)
  {
    SameOperationsSameTop(a, b, key);
    forall value ensures HasValue(a, key, value) <==> HasValue(b, key, value) {
      if row :| row in a && Live(row, key) && row.value == value {
        assert row in b;
      }
    }
    if TopHasAllValues(a, key) {
      forall row | row in b && Live(row, key) ensures HasTopValue(b, key, row.value) {
        assert row in a && HasTopValue(a, key, row.value);
        var top :| LiveTop(a, key, top) && top.value == row.value;
        assert LiveTop(b, key, top);
      }
    }
  }

  lemma TopValuesAgree<K(!new), V(!new)>(rule: Rule, a: seq<Row<K, V>>, b: seq<Row<K, V>>, key: K)
    requires (forall row :: row in a ==> !row.deleted) && TopHasAllValues(a, key) && SameRows(a, b)
    ensures SameValues(Replay(rule, a), Replay(rule, b), key)
  {
    hide Replay, HasValue, TopHasAllValues;
    SameLogValues(a, b, key);
    forall value ensures HasValue(Replay(rule, a), key, value) <==> HasValue(Replay(rule, b), key, value) {
      TopValueListed(rule, a, key, value);
      TopValueListed(rule, b, key, value);
    }
  }

  // A repeated operation that comes last is listed; a latest one that comes last leaves only the latest.
  lemma RepeatedLast<K(!new), V(!new)>(rule: Rule, log: seq<Row<K, V>>, key: K, row: Row<K, V>)
    requires rule != KeepAll && row in log && Live(row, key)
    ensures HasValue(Replay(rule, log + [row]), key, row.value)
    ensures LiveTop(log, key, row) ==>
              forall value :: HasValue(Replay(rule, log + [row]), key, value) ==> HasTopValue(log, key, value)
  {
    var more := log + [row];
    assert Stands(more, key, |log|);
    ListedValues(rule, more, key, row.value);
    if LiveTop(log, key, row) {
      forall value | HasValue(Replay(rule, more), key, value) ensures HasTopValue(log, key, value) {
        ListedValues(rule, more, key, value);
        var i :| 0 <= i < |more| && Stands(more, key, i) && more[i].value == value;
        assert more[|log|] == row && more[i].time >= row.time;
        assert more[i] in log;
        assert LiveTop(log, key, more[i]);
      }
    }
  }

  // Otherwise some value is listed when its operation is repeated last, and not when a latest operation is.
  lemma SomeOrderDiffers<K(!new), V(!new)>(rule: Rule, log: seq<Row<K, V>>, key: K) returns (row: Row<K, V>, top: Row<K, V>)
    requires rule != KeepAll && !TopHasAllValues(log, key)
    ensures row in log && Live(row, key) && LiveTop(log, key, top)
    ensures HasValue(Replay(rule, log + [row]), key, row.value)
    ensures !HasValue(Replay(rule, log + [top]), key, row.value)
  {
    hide Replay, HasValue;
    row :| row in log && Live(row, key) && !HasTopValue(log, key, row.value);
    top := NewestOfLive(log, key);
    RepeatedLast(rule, log, key, row);
    RepeatedLast(rule, log, key, top);
  }

  /** Without tombstones, every order and repetition of the same operations lists the same values for a key exactly
      when every value written for it is also written at its greatest time. */
  lemma ValuesOrderIrrelevantIff<K(!new), V(!new)>(rule: Rule, log: seq<Row<K, V>>, key: K)
    requires rule != KeepAll && forall row :: row in log ==> !row.deleted
    ensures (forall other :: SameRows(log, other) ==> SameValues(Replay(rule, log), Replay(rule, other), key)) <==>
            TopHasAllValues(log, key)
  {
    hide Replay, HasValue, TopHasAllValues;
    if TopHasAllValues(log, key) {
      forall other | SameRows(log, other) ensures SameValues(Replay(rule, log), Replay(rule, other), key) {
        TopValuesAgree(rule, log, other, key);
      }
    } else {
      var row, top := SomeOrderDiffers(rule, log, key);
      assert SameRows(log, log + [row]) && SameRows(log, log + [top]);
      assert !(SameValues(Replay(rule, log), Replay(rule, log + [row]), key) &&
               SameValues(Replay(rule, log), Replay(rule, log + [top]), key));
    }
  }

  // ---------- one write and the other keys ----------

  // An older live row is still stored, but newer tombstones hide it.
  ghost predicate Shadowed<K, V>(table: seq<Row<K, V>>, key: K) {
    HasLive(table, key) && !Listed(table, key)
  }

  ghost predicate AllOlder<K, V>(table: seq<Row<K, V>>, key: K, time: int) {
    forall row :: row in table && row.key == key ==> row.time < time
  }

  lemma OtherKeyRows<K, V>(table: seq<Row<K, V>>, op: Row<K, V>, row: Row<K, V>)
    requires row.key != op.key
    ensures row in Write(Collect, table, op) <==> row in table && !(row.deleted && row.time < op.time)
  {
    RemainingRows(Collect, table, op, row);
  }

  lemma ShadowLifted<K, V>(table: seq<Row<K, V>>, op: Row<K, V>, key: K)
    requires key != op.key && !Listed(table, key)
    ensures Listed(Write(Collect, table, op), key) <==> HasLive(table, key) && AllOlder(table, key, op.time)
  {
    var after := Write(Collect, table, op);
    if HasLive(table, key) && AllOlder(table, key, op.time) {
      var top := NewestOfLive(table, key);
      OtherKeyRows(table, op, top);
      forall other | other in after && other.key == key ensures other.time <= top.time {
        OtherKeyRows(table, op, other);
      }
    }
    if row :| row in after && Live(row, key) && Newest(after, key, row.time) {
      OtherKeyRows(table, op, row);
      var hiding :| hiding in table && hiding.key == key && hiding.time > row.time;
      OtherKeyRows(table, op, hiding);
      forall other | other in table && other.key == key ensures other.time < op.time {
        OtherKeyRows(table, op, other);
      }
    }
  }

  /** In any table, a write for one edge changes whether another edge is listed exactly when that edge is shadowed
      and all its rows, its hiding tombstones among them, are older than the write; it then comes back. */
  lemma InterferenceWhen<K, V>(table: seq<Row<K, V>>, op: Row<K, V>, key: K)
    requires key != op.key
    ensures (Listed(Write(Collect, table, op), key) != Listed(table, key)) <==>
            Shadowed(table, key) && AllOlder(table, key, op.time)
    ensures Listed(table, key) ==> Listed(Write(Collect, table, op), key)
  {
    var after := Write(Collect, table, op);
    if Listed(table, key) {
      var row :| row in table && Live(row, key) && Newest(table, key, row.time);
      OtherKeyRows(table, op, row);
      forall other | other in after && other.key == key ensures other.time <= row.time {
        OtherKeyRows(table, op, other);
      }
    } else {
      ShadowLifted(table, op, key);
    }
  }

  // No live row is stored strictly below a tombstone of its key.
  ghost predicate Clean<K(!new), V(!new)>(table: seq<Row<K, V>>) {
    forall live, tombstone :: live in table && tombstone in table && live.key == tombstone.key && !live.deleted && tombstone.deleted ==>
      tombstone.time <= live.time
  }

  /** Ordered delivery on each key keeps the table clean ... */
  lemma OrderedWriteKeepsClean<K(!new), V(!new)>(table: seq<Row<K, V>>, op: Row<K, V>)
    requires Clean(table) && Newest(table, op.key, op.time)
    ensures Clean(Write(Collect, table, op))
  {
    var after := Write(Collect, table, op);
    forall live, tombstone | live in after && tombstone in after && live.key == tombstone.key && !live.deleted && tombstone.deleted
      ensures tombstone.time <= live.time
    {
      RemainingRows(Collect, table, op, live);
      RemainingRows(Collect, table, op, tombstone);
    }
  }

  /** ... and in a clean table no write ever changes the answer for another key. */
  lemma CleanMeansIsolated<K(!new), V(!new)>(table: seq<Row<K, V>>, op: Row<K, V>, key: K)
    requires Clean(table) && key != op.key
    ensures Listed(Write(Collect, table, op), key) == Listed(table, key)
  {
    if HasLive(table, key) {
      var top := NewestOfLive(table, key);
      assert Newest(table, key, top.time);
    }
    InterferenceWhen(table, op, key);
  }

  /** So a table replayed from an ordered log is clean. */
  lemma {:induction false} OrderedTableIsClean<K(!new), V(!new)>(log: seq<Row<K, V>>)
    requires InOrder(log)
    ensures Clean(Replay(Collect, log))
    decreases |log|
  {
    if log != [] {
      var n := |log| - 1;
      OrderedTableIsClean(log[..n]);
      forall row | row in Replay(Collect, log[..n]) && row.key == log[n].key ensures row.time <= log[n].time {
        TableWithinLog(Collect, log[..n], row);
        var i :| 0 <= i < n && log[..n][i] == row;
        assert log[i] == row;
      }
      OrderedWriteKeepsClean(Replay(Collect, log[..n]), log[n]);
    }
  }

  // ---------- how much is stored ----------

  predicate OneRowPerKey<K(==), V>(table: seq<Row<K, V>>) {
    forall i, j :: 0 <= i < j < |table| ==> table[i].key != table[j].key
  }

  predicate OneTombstone<K, V>(table: seq<Row<K, V>>) {
    forall i, j :: 0 <= i < j < |table| ==> !(table[i].deleted && table[j].deleted)
  }

  predicate Increasing<K, V>(log: seq<Row<K, V>>) {
    forall i, j :: 0 <= i < j < |log| ==> log[i].time < log[j].time
  }

  // What is kept is a subsequence of the table.
  lemma {:induction false} RemainingKeepsOrder<K, V>(rule: Rule, table: seq<Row<K, V>>, op: Row<K, V>)
    ensures OneRowPerKey(table) ==> OneRowPerKey(Remaining(rule, table, op))
    ensures OneTombstone(table) ==> OneTombstone(Remaining(rule, table, op))
    decreases |table|
  {
    if table != [] {
      var n := |table| - 1;
      var init, rest := table[..n], Remaining(rule, table[..n], op);
      RemainingKeepsOrder(rule, init, op);
      forall i | 0 <= i < |rest| ensures exists k :: 0 <= k < n && table[k] == rest[i] {
        RemainingRows(rule, init, op, rest[i]);
        var k :| 0 <= k < n && init[k] == rest[i];
        assert table[k] == rest[i];
      }
    }
  }

  /** With strictly increasing timestamps a collected table holds at most one row per key and at most one tombstone. */
  lemma {:induction false} StorageBound<K, V>(log: seq<Row<K, V>>)
    requires Increasing(log)
    ensures OneRowPerKey(Replay(Collect, log)) && OneTombstone(Replay(Collect, log))
    decreases |log|
  {
    if log != [] {
      var n := |log| - 1;
      var table, op := Replay(Collect, log[..n]), log[n];
      StorageBound(log[..n]);
      RemainingKeepsOrder(Collect, table, op);
      var rest := Remaining(Collect, table, op);
      forall i | 0 <= i < |rest| ensures rest[i].key != op.key && !rest[i].deleted {
        RemainingRows(Collect, table, op, rest[i]);
        TableWithinLog(Collect, log[..n], rest[i]);
        var k :| 0 <= k < n && log[..n][k] == rest[i];
        assert log[k] == rest[i];
      }
    }
  }

  /** The document table never holds more than one tombstone, under any order of delivery. */
  lemma {:induction false} DocumentTombstones<K, V>(log: seq<Row<K, V>>)
    ensures OneTombstone(Replay(CollectTombstones, log))
    decreases |log|
  {
    if log != [] {
      var n := |log| - 1;
      var table, op := Replay(CollectTombstones, log[..n]), log[n];
      DocumentTombstones(log[..n]);
      RemainingKeepsOrder(CollectTombstones, table, op);
      var rest := Remaining(CollectTombstones, table, op);
      forall i | 0 <= i < |rest| ensures !rest[i].deleted {
        RemainingRows(CollectTombstones, table, op, rest[i]);
      }
    }
  }

  // ---------- logs without tombstones ----------

  predicate AllLive<K, V>(log: seq<Row<K, V>>) {
    forall i :: 0 <= i < |log| ==> !log[i].deleted
  }

  /** Without tombstones the latest live rows of a table are the latest of the log, whatever rule and order: the
      answer depends only on which operations were delivered. */
  lemma LiveLogAnswers<K(!new), V(!new)>(rule: Rule, log: seq<Row<K, V>>, key: K)
    requires AllLive(log)
    ensures forall row :: LiveTop(Replay(rule, log), key, row) <==> LiveTop(log, key, row)
    ensures HasLive(Replay(rule, log), key) <==> HasLive(log, key)
    ensures Listed(Replay(rule, log), key) <==> HasLive(log, key)
  {
    var table := Replay(rule, log);
    forall row | row in table ensures row in log && !row.deleted {
      TableWithinLog(rule, log, row);
    }
    if HasLive(log, key) {
      var top := NewestOfLive(log, key);
      NewestLiveSurvives(rule, log, key, top);
      assert Newest(table, key, top.time);
      forall row ensures LiveTop(table, key, row) <==> LiveTop(log, key, row) {
        if LiveTop(log, key, row) {
          NewestLiveSurvives(rule, log, key, row);
        }
      }
    }
  }
}
