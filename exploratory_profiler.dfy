/**
 * The exploratory profile (`perform_eda`): how often each event name and
 * each numeric alarm ID occurs, and the table of the records that carry an
 * AlarmID.
 */
module ExploratoryProfiler {
  import opened Wrappers
  import opened Counting
  import opened Sequences
  import opened EventFrame

  /** One `alarm_table` row: the record's timestamp, event name and raw AlarmID. */
  datatype AlarmRecord = AlarmRecord(timestamp: string, eventName: Option<string>, alarmId: RawAlarm)

  datatype EdaResult = EdaResult(
    eventCounts: seq<Entry<string>>,
    alarmCounts: seq<Entry<int>>,
    alarmTable: seq<AlarmRecord>)

  /** The event names that are present, in row order (counting skips missing names). */
  function EventNames(rows: seq<Row>): (names: seq<string>)
    ensures |names| <= |rows|
  {
    if rows == [] then []
    else
      var last := rows[|rows| - 1];
      EventNames(rows[..|rows| - 1]) + if last.eventName.Some? then [last.eventName.value] else []
  }

  /** The rows whose raw AlarmID is not missing, projected to timestamp, name and AlarmID. */
  function AlarmTable(rows: seq<Row>): (table: seq<AlarmRecord>)
    ensures |table| <= |rows|
  {
    if rows == [] then []
    else
      var last := rows[|rows| - 1];
      AlarmTable(rows[..|rows| - 1])
        + if last.alarmId.NoAlarm? then [] else [AlarmRecord(last.timestamp, last.eventName, last.alarmId)]
  }

  /** The AlarmIDs of the alarm rows that coerce to a number, in row order. */
  function NumericAlarmIds(rows: seq<Row>): (ids: seq<int>)
    ensures |ids| <= |AlarmTable(rows)|
  {
    if rows == [] then []
    else
      var last := rows[|rows| - 1];
      NumericAlarmIds(rows[..|rows| - 1]) + if Coerce(last.alarmId).Some? then [Coerce(last.alarmId).value] else []
  }

  /**
   * `perform_eda(df)`. The event counts add up to the rows with a name, the
   * alarm table has at most one record per row, and the alarm counts are
   * empty when the table is and otherwise add up to the rows with a numeric
   * AlarmID.
   */
  function PerformEda(rows: seq<Row>): (r: EdaResult)
    ensures Total(r.eventCounts) == |EventNames(rows)| <= |rows|
    ensures |r.alarmTable| <= |rows|
    ensures r.alarmTable == [] ==> r.alarmCounts == []
    ensures r.alarmTable != [] ==> Total(r.alarmCounts) == |NumericAlarmIds(rows)| <= |r.alarmTable|
  {
    var table := AlarmTable(rows);
    RankedTallyFacts(EventNames(rows));
    RankedTallyFacts(NumericAlarmIds(rows));
    EdaResult(
      RankedTally(EventNames(rows)),
      if table == [] then [] else RankedTally(NumericAlarmIds(rows)),
      table)
  }

  /** The rows carrying event name `name`. */
  function HasName(name: string): Row -> bool {
    (r: Row) => r.eventName == Some(name)
  }

  /** The rows whose AlarmID is the number `id`. */
  function HasAlarm(id: int): Row -> bool {
    (r: Row) => r.alarmId == Num(id)
  }

  /** Every name of `EventNames` occurs as often as there are rows with that name. */
  lemma {:induction false} EventNameCount(rows: seq<Row>, name: string)
    ensures multiset(EventNames(rows))[name] == CountWhere(rows, HasName(name))
  {
    if rows != [] {
      var n := |rows| - 1;
      EventNameCount(rows[..n], name);
      CountWhereSnoc(rows, HasName(name));
      var tail := if rows[n].eventName.Some? then [rows[n].eventName.value] else [];
      assert EventNames(rows) == EventNames(rows[..n]) + tail;
      assert multiset(tail)[name] == if rows[n].eventName == Some(name) then 1 else 0;
    }
  }

  /** Every ID of `NumericAlarmIds` occurs as often as there are rows with that numeric AlarmID. */
  lemma {:induction false} AlarmIdCount(rows: seq<Row>, id: int)
    ensures multiset(NumericAlarmIds(rows))[id] == CountWhere(rows, HasAlarm(id))
  {
    if rows != [] {
      var n := |rows| - 1;
      AlarmIdCount(rows[..n], id);
      CountWhereSnoc(rows, HasAlarm(id));
      var tail := if Coerce(rows[n].alarmId).Some? then [Coerce(rows[n].alarmId).value] else [];
      assert NumericAlarmIds(rows) == NumericAlarmIds(rows[..n]) + tail;
      assert multiset(tail)[id] == if rows[n].alarmId == Num(id) then 1 else 0;
    }
  }

  /** A name is among `EventNames` exactly when some row carries it. */
  lemma {:induction false} EventNamePresent(rows: seq<Row>, name: string)
    ensures name in EventNames(rows) <==> exists i :: 0 <= i < |rows| && rows[i].eventName == Some(name)
  {
    if rows != [] {
      var n := |rows| - 1;
      var pre := rows[..n];
      EventNamePresent(pre, name);
      var tail := if rows[n].eventName.Some? then [rows[n].eventName.value] else [];
      assert EventNames(rows) == EventNames(pre) + tail;
      assert name in tail <==> rows[n].eventName == Some(name);
      if exists i :: 0 <= i < n && pre[i].eventName == Some(name) {
        var i :| 0 <= i < n && pre[i].eventName == Some(name);
        assert rows[i] == pre[i];
      }
      if exists i :: 0 <= i < |rows| && rows[i].eventName == Some(name) {
        var i :| 0 <= i < |rows| && rows[i].eventName == Some(name);
        if i < n {
          assert pre[i] == rows[i];
        }
      }
    }
  }

  /** An ID is among `NumericAlarmIds` exactly when some row carries it as its numeric AlarmID. */
  lemma {:induction false} AlarmIdPresent(rows: seq<Row>, id: int)
    ensures id in NumericAlarmIds(rows) <==> exists i :: 0 <= i < |rows| && rows[i].alarmId == Num(id)
  {
    if rows != [] {
      var n := |rows| - 1;
      var pre := rows[..n];
      AlarmIdPresent(pre, id);
      var tail := if Coerce(rows[n].alarmId).Some? then [Coerce(rows[n].alarmId).value] else [];
      assert NumericAlarmIds(rows) == NumericAlarmIds(pre) + tail;
      assert id in tail <==> rows[n].alarmId == Num(id);
      if exists i :: 0 <= i < n && pre[i].alarmId == Num(id) {
        var i :| 0 <= i < n && pre[i].alarmId == Num(id);
        assert rows[i] == pre[i];
      }
      if exists i :: 0 <= i < |rows| && rows[i].alarmId == Num(id) {
        var i :| 0 <= i < |rows| && rows[i].alarmId == Num(id);
        if i < n {
          assert pre[i] == rows[i];
        }
      }
    }
  }

  /**
   * `event_counts` holds each present event name once, with the number of
   * rows carrying that name, largest count first.
   */
  lemma EventCountsFacts(rows: seq<Row>)
    ensures var counts := PerformEda(rows).eventCounts;
      && SortedByCount(counts)
      && DistinctKeys(counts)
      && (forall n :: n in Keys(counts) <==> exists i :: 0 <= i < |rows| && rows[i].eventName == Some(n))
      && forall k :: 0 <= k < |counts| ==> counts[k].count == CountWhere(rows, HasName(counts[k].key)) >= 1
  {
    var names := EventNames(rows);
    var counts := PerformEda(rows).eventCounts;
    RankedTallyFacts(names);
    forall k | 0 <= k < |counts| ensures counts[k].count == CountWhere(rows, HasName(counts[k].key)) {
      EventNameCount(rows, counts[k].key);
    }
    forall n ensures n in names <==> exists i :: 0 <= i < |rows| && rows[i].eventName == Some(n) {
      EventNamePresent(rows, n);
    }
  }

  /** Without any event name, `event_counts` is empty. */
  lemma {:induction false} NoNamesNoCounts(rows: seq<Row>)
    requires forall i :: 0 <= i < |rows| ==> rows[i].eventName == None
    ensures EventNames(rows) == [] && PerformEda(rows).eventCounts == []
  {
    if rows != [] {
      NoNamesNoCounts(rows[..|rows| - 1]);
    }
  }

  /** The alarm table keeps the rows that carry an AlarmID, in their order. */
  lemma {:induction false} AlarmTableFilters(a: seq<Row>, b: seq<Row>)
    ensures AlarmTable(a + b) == AlarmTable(a) + AlarmTable(b)
    decreases |b|
  {
    if b != [] {
      var n := |b| - 1;
      assert (a + b)[..|a + b| - 1] == a + b[..n];
      AlarmTableFilters(a, b[..n]);
    } else {
      assert a + b == a;
    }
  }

  /** The rows whose AlarmID is not missing. */
  function CarriesAlarm(): Row -> bool {
    (r: Row) => !r.alarmId.NoAlarm?
  }

  /** A row's `alarm_table` record. */
  function Recorded(): Row -> AlarmRecord {
    (r: Row) => AlarmRecord(r.timestamp, r.eventName, r.alarmId)
  }

  /**
   * The alarm table holds one record per row whose AlarmID is not missing,
   * in row order: that row's timestamp, event name and raw AlarmID.
   */
  lemma AlarmTablePositions(rows: seq<Row>)
    ensures var ps := Positions(rows, 0, |rows|, CarriesAlarm());
      && |AlarmTable(rows)| == |ps|
      && forall k :: 0 <= k < |ps| ==>
           AlarmTable(rows)[k] == AlarmRecord(rows[ps[k]].timestamp, rows[ps[k]].eventName, rows[ps[k]].alarmId)
  {
    AlarmTableImage(rows);
  }

  lemma {:induction false} AlarmTableImage(rows: seq<Row>)
    ensures ImageAt(AlarmTable(rows), rows, Positions(rows, 0, |rows|, CarriesAlarm()), Recorded())
  {
    if rows != [] {
      var n := |rows| - 1;
      var keep := CarriesAlarm()(rows[n]);
      AlarmTableImage(rows[..n]);
      PositionsSnoc(rows, CarriesAlarm());
      assert AlarmTable(rows) == AlarmTable(rows[..n]) + (if keep then [Recorded()(rows[n])] else []);
      ImageSnoc(rows, Positions(rows[..n], 0, n, CarriesAlarm()), AlarmTable(rows[..n]), Recorded(), keep);
    }
  }

  /**
   * `alarm_counts` holds each numeric AlarmID present once, with the number
   * of rows carrying it, largest count first; its counts add up to no more
   * than the rows of `alarm_table`.
   */
  lemma AlarmCountsFacts(rows: seq<Row>)
    ensures var eda := PerformEda(rows);
      && SortedByCount(eda.alarmCounts)
      && DistinctKeys(eda.alarmCounts)
      && Total(eda.alarmCounts) <= |eda.alarmTable|
      && (forall id :: id in Keys(eda.alarmCounts) <==> exists i :: 0 <= i < |rows| && rows[i].alarmId == Num(id))
      && forall k :: 0 <= k < |eda.alarmCounts| ==>
           eda.alarmCounts[k].count == CountWhere(rows, HasAlarm(eda.alarmCounts[k].key)) >= 1
  {
    var eda := PerformEda(rows);
    var ids := NumericAlarmIds(rows);
    if AlarmTable(rows) != [] {
      RankedTallyFacts(ids);
      forall k | 0 <= k < |eda.alarmCounts|
        ensures eda.alarmCounts[k].count == CountWhere(rows, HasAlarm(eda.alarmCounts[k].key))
      {
        AlarmIdCount(rows, eda.alarmCounts[k].key);
      }
    }
    forall id ensures id in Keys(eda.alarmCounts) <==> exists i :: 0 <= i < |rows| && rows[i].alarmId == Num(id) {
      AlarmIdPresent(rows, id);
    }
  }

  /** Without any AlarmID, `alarm_counts` and `alarm_table` are both empty. */
  lemma {:induction false} NoAlarmsNoTable(rows: seq<Row>)
    requires forall i :: 0 <= i < |rows| ==> rows[i].alarmId.NoAlarm?
    ensures PerformEda(rows).alarmCounts == [] && PerformEda(rows).alarmTable == []
  {
    if rows != [] {
      NoAlarmsNoTable(rows[..|rows| - 1]);
    }
  }
}
