/**
 * The weather_reports table, held in memory. Rows are kept in insertion
 * order; id stands for the serial column and oid carries the UNIQUE
 * constraint. WeatherReport::save is an upsert-by-presence: insert a
 * skeleton row when the oid is new, then one UPDATE per metric present.
 */
module Storage {
  import opened Wrappers
  import opened Reports
  import QueryBuilder

  /** What goes wrong during a save, injected in place of the database. */
  datatype Fault =
    | NoFault
    | ConnectFails                  // Client::connect fails before anything is read or written
    | UpdateFails(column: Metric)   // the UPDATE of this column fails, if it is issued

  datatype StorageError = ConnectionError | UpdateError(column: Metric)

  datatype Table<V> = Table(rows: seq<WeatherReport<V>>, nextId: int)

  /**
   * The table's constraints: oid UNIQUE, and ids drawn from the serial
   * sequence in insertion order, all below the next value it hands out.
   */
  predicate ValidTable<V>(t: Table<V>) {
    && 1 <= t.nextId
    && (forall i, j :: 0 <= i < j < |t.rows| ==> t.rows[i].oid != t.rows[j].oid)
    && (forall i, j :: 0 <= i < j < |t.rows| ==> t.rows[i].id < t.rows[j].id)
    && (forall i :: 0 <= i < |t.rows| ==> 1 <= t.rows[i].id < t.nextId)
  }

  /** The filter save's existence check passes to select. */
  function OidCondition(oid: string): string {
    "oid = '" + oid + "'"
  }

  /** The text of save's existence check. */
  lemma OidLookupQuery(oid: string)
    ensures QueryBuilder.SelectQuery(None, None, None, Some(OidCondition(oid)))
            == "SELECT * FROM weather_reports WHERE oid = '" + oid + "' ORDER BY id DESC"
  {
    var filtered := QueryBuilder.Join3(QueryBuilder.Base, "WHERE", OidCondition(oid));
    assert filtered == "SELECT * FROM weather_reports WHERE oid = '" + oid + "'";
    assert QueryBuilder.SelectQuery(None, None, None, Some(OidCondition(oid)))
           == QueryBuilder.Join3(filtered, "ORDER BY", QueryBuilder.DefaultOrder);
  }

  /** The first row holding oid, if any: the answer to the existence check. */
  function IndexOf<V>(rows: seq<WeatherReport<V>>, oid: string): (r: Option<nat>)
    ensures r.Some? ==> r.value < |rows| && rows[r.value].oid == oid
    ensures r.Some? ==> forall j :: 0 <= j < r.value ==> rows[j].oid != oid
    ensures r.None? ==> forall j :: 0 <= j < |rows| ==> rows[j].oid != oid
  {
    if rows == [] then None
    else if rows[0].oid == oid then Some(0)
    else match IndexOf(rows[1..], oid)
      case None => None
      case Some(i) => Some(i + 1)
  }

  /** The metrics among the first n entries of Columns. */
  function Prefix<V>(m: Metrics<V>, n: nat): (p: Metrics<V>)
    ensures forall k :: k in p <==> k in m && Position(k) < n
  {
    map k | k in m && Position(k) < n :: m[k]
  }

  /** Whether the injected fault actually stops the save. */
  predicate Fails<V>(m: Metrics<V>, fault: Fault) {
    fault.ConnectFails? || (fault.UpdateFails? && fault.column in m)
  }

  /**
   * The metric columns save manages to write: all present ones, or, when
   * the UPDATE of a present column fails, those written before it.
   */
  function Written<V>(m: Metrics<V>, fault: Fault): Metrics<V> {
    if fault.UpdateFails? && fault.column in m then Prefix(m, Position(fault.column)) else m
  }

  /**
   * The rows after "UPDATE weather_reports SET <columns of w> WHERE oid = <oid>":
   * every row holding oid takes w's columns, every other row is as it was.
   */
  function Overlay<V>(rows: seq<WeatherReport<V>>, oid: string, w: Metrics<V>): seq<WeatherReport<V>> {
    seq(|rows|, j requires 0 <= j < |rows| =>
      if rows[j].oid == oid then rows[j].(metrics := rows[j].metrics + w) else rows[j])
  }

  /** The row "INSERT INTO weather_reports (oid, device_type, timestamp)" adds. */
  function Skeleton<V>(id: int, r: WeatherReport<V>): WeatherReport<V> {
    WeatherReport(id, r.oid, map[], r.deviceType, r.timestamp)
  }

  datatype Saved<V> = Saved(table: Table<V>, result: Result<WeatherReport<V>, StorageError>)

  /** The table after save's existence check and conditional insert. */
  function Inserted<V>(t: Table<V>, r: WeatherReport<V>): Table<V> {
    if IndexOf(t.rows, r.oid).None? then Table(t.rows + [Skeleton(t.nextId, r)], t.nextId + 1) else t
  }

  /** The table after save, and what save returns. */
  function Upsert<V>(t: Table<V>, r: WeatherReport<V>, fault: Fault): (s: Saved<V>)
    ensures s.result.Ok? <==> !Fails(r.metrics, fault)
    ensures s.result.Ok? ==> s.result.value == r
    ensures s.result.Err? ==>
              s.result.error == if fault.ConnectFails? then ConnectionError else UpdateError(fault.column)
    ensures fault.ConnectFails? ==> s.table == t
    ensures |s.table.rows|
            == |t.rows| + (if !fault.ConnectFails? && IndexOf(t.rows, r.oid).None? then 1 else 0)
  {
    if fault.ConnectFails? then Saved(t, Err(ConnectionError))
    else
      var inserted := Inserted(t, r);
      var updated := Table(Overlay(inserted.rows, r.oid, Written(r.metrics, fault)), inserted.nextId);
      if Fails(r.metrics, fault) then Saved(updated, Err(UpdateError(fault.column)))
      else Saved(updated, Ok(r))
  }

  // ---------------------------------------------------------------------
  // What save guarantees
  // ---------------------------------------------------------------------

  /** Without a fault every present metric is written; a failing UPDATE stops at its column. */
  lemma WrittenColumns<V>(m: Metrics<V>, fault: Fault)
    ensures !Fails(m, fault) ==> Written(m, fault) == m
    ensures fault.UpdateFails? && fault.column in m ==>
              forall k :: k in Written(m, fault) <==> k in m && Position(k) < Position(fault.column)
    ensures forall k :: k in Written(m, fault) ==> k in m && Written(m, fault)[k] == m[k]
  {
  }

  /** The conditional insert keeps oid unique and ids increasing. */
  lemma InsertedKeepsValid<V>(t: Table<V>, r: WeatherReport<V>)
    requires ValidTable(t)
    ensures ValidTable(Inserted(t, r))
  {
  }

  /** Column updates touch neither oids nor ids. */
  lemma OverlayKeepsValid<V>(t: Table<V>, oid: string, w: Metrics<V>)
    requires ValidTable(t)
    ensures ValidTable(Table(Overlay(t.rows, oid, w), t.nextId))
  {
    var rows := Overlay(t.rows, oid, w);
    assert forall j :: 0 <= j < |rows| ==> rows[j].oid == t.rows[j].oid && rows[j].id == t.rows[j].id;
  }

  /** save keeps oid unique and ids increasing. */
  lemma {:induction false} UpsertKeepsValid<V>(t: Table<V>, r: WeatherReport<V>, fault: Fault)
    requires ValidTable(t)
    ensures ValidTable(Upsert(t, r, fault).table)
  {
    if !fault.ConnectFails? {
      InsertedKeepsValid(t, r);
      OverlayKeepsValid(Inserted(t, r), r.oid, Written(r.metrics, fault));
    }
  }

  /** A failed connection changes nothing. */
  lemma UpsertConnectFailure<V>(t: Table<V>, r: WeatherReport<V>)
    ensures Upsert(t, r, ConnectFails) == Saved(t, Err(ConnectionError))
  {
  }

  /**
   * save on a new oid adds exactly one row, at the end, with the next id,
   * the report's oid, device type and timestamp, and exactly the metrics
   * written (all the report's present metrics when nothing fails).
   */
  lemma {:induction false} UpsertNewOid<V>(t: Table<V>, r: WeatherReport<V>, fault: Fault)
    requires IndexOf(t.rows, r.oid).None?
    requires !fault.ConnectFails?
    ensures var after := Upsert(t, r, fault).table;
            && after.rows == t.rows + [WeatherReport(t.nextId, r.oid, Written(r.metrics, fault), r.deviceType, r.timestamp)]
            && after.nextId == t.nextId + 1
    ensures !Fails(r.metrics, fault) ==>
              var row := Upsert(t, r, fault).table.rows[|t.rows|];
              forall k :: row.Get(k) == r.Get(k)
  {
    var after := Upsert(t, r, fault).table;
    var w := Written(r.metrics, fault);
    var expected := t.rows + [WeatherReport(t.nextId, r.oid, w, r.deviceType, r.timestamp)];
    assert map[] + w == w;
    assert |after.rows| == |expected|;
    forall j | 0 <= j < |expected| ensures after.rows[j] == expected[j] {
    }
  }

  /**
   * save on an oid already stored at row i inserts nothing: the row count
   * and the next id stay, row i keeps its id, oid, device type and
   * timestamp and takes the written metrics over its own, and every other
   * row is left as it was.
   */
  lemma {:induction false} UpsertExistingOid<V>(t: Table<V>, r: WeatherReport<V>, fault: Fault, i: nat)
    requires ValidTable(t)
    requires i < |t.rows| && t.rows[i].oid == r.oid
    requires !fault.ConnectFails?
    ensures var after := Upsert(t, r, fault).table;
            && |after.rows| == |t.rows| && after.nextId == t.nextId
            && after.rows[i] == t.rows[i].(metrics := t.rows[i].metrics + Written(r.metrics, fault))
            && forall j :: 0 <= j < |t.rows| && j != i ==> after.rows[j] == t.rows[j]
  {
    assert IndexOf(t.rows, r.oid) == Some(i);
  }

  /**
   * Upsert-by-presence, column by column, for the row holding the report's
   * oid: a written metric takes the report's value, any other column keeps
   * what it held (so a None never clears a value); no other row changes.
   */
  lemma {:induction false} UpsertByPresence<V>(t: Table<V>, r: WeatherReport<V>, fault: Fault)
    requires ValidTable(t)
    requires !fault.ConnectFails?
    ensures var after := Upsert(t, r, fault).table;
            var i := IndexOf(after.rows, r.oid);
            && i.Some?
            && (forall k :: k in Written(r.metrics, fault) ==> after.rows[i.value].Get(k) == r.Get(k))
            && (forall k :: k !in Written(r.metrics, fault) ==>
                  after.rows[i.value].Get(k)
                  == (match IndexOf(t.rows, r.oid) case Some(j) => t.rows[j].Get(k) case None => None))
            && (forall j :: 0 <= j < |t.rows| && t.rows[j].oid != r.oid ==> after.rows[j] == t.rows[j])
  {
    var after := Upsert(t, r, fault).table;
    UpsertKeepsValid(t, r, fault);
    WrittenColumns(r.metrics, fault);
    match IndexOf(t.rows, r.oid)
    case None =>
      UpsertNewOid(t, r, fault);
      assert after.rows[|t.rows|].oid == r.oid;
      assert IndexOf(after.rows, r.oid) == Some(|t.rows|);
    case Some(j) =>
      UpsertExistingOid(t, r, fault, j);
      assert IndexOf(after.rows, r.oid) == Some(j);
  }

  /**
   * Two saves of one oid whose present metrics are disjoint leave the
   * union of both on the stored row, over whatever it held before, with
   * the device type and timestamp of the row's first write.
   */
  lemma {:induction false} DisjointSavesUnion<V>(t: Table<V>, r1: WeatherReport<V>, r2: WeatherReport<V>)
    requires ValidTable(t)
    requires r1.oid == r2.oid
    requires r1.metrics.Keys !! r2.metrics.Keys
    ensures var after := Upsert(Upsert(t, r1, NoFault).table, r2, NoFault).table;
            var i := IndexOf(after.rows, r1.oid);
            && i.Some?
            && (forall k :: k in r1.metrics ==> after.rows[i.value].Get(k) == r1.Get(k))
            && (forall k :: k in r2.metrics ==> after.rows[i.value].Get(k) == r2.Get(k))
            && (IndexOf(t.rows, r1.oid).None? ==>
                  && after.rows[i.value].metrics == r1.metrics + r2.metrics
                  && after.rows[i.value].deviceType == r1.deviceType
                  && after.rows[i.value].timestamp == r1.timestamp)
  {
    var mid := Upsert(t, r1, NoFault).table;
    var after := Upsert(mid, r2, NoFault).table;
    WrittenColumns(r1.metrics, NoFault);
    WrittenColumns(r2.metrics, NoFault);
    UpsertKeepsValid(t, r1, NoFault);
    UpsertByPresence(t, r1, NoFault);
    UpsertByPresence(mid, r2, NoFault);
    var i1 := IndexOf(mid.rows, r1.oid).value;
    UpsertExistingOid(mid, r2, NoFault, i1);
    assert IndexOf(after.rows, r1.oid) == Some(i1);
    if IndexOf(t.rows, r1.oid).None? {
      UpsertNewOid(t, r1, NoFault);
      assert i1 == |t.rows|;
    }
  }

  /** The rows a "ORDER BY timestamp DESC LIMIT 1" query may return: one of greatest timestamp. */
  ghost predicate IsLatest<V>(rows: seq<WeatherReport<V>>, r: WeatherReport<V>) {
    r in rows && forall j :: 0 <= j < |rows| ==> rows[j].timestamp <= r.timestamp
  }

  /** The query text of the retrieval handler. */
  lemma LatestQuery()
    ensures QueryBuilder.SelectQuery(Some(1), None, Some("timestamp DESC"), None)
            == QueryBuilder.Base + " ORDER BY timestamp DESC LIMIT 1"
  {
    assert QueryBuilder.NatToString(1) == "1";
    var ordered := QueryBuilder.Join3(QueryBuilder.Base, "ORDER BY", "timestamp DESC");
    assert ordered == QueryBuilder.Base + " ORDER BY timestamp DESC";
    assert QueryBuilder.SelectQuery(Some(1), None, Some("timestamp DESC"), None)
           == QueryBuilder.Join3(ordered, "LIMIT", "1");
  }

  /**
   * A report saved under a new oid with a timestamp later than every stored
   * one is the only answer to the latest-row query afterwards: it carries
   * the report's oid, device type, timestamp and written metrics.
   */
  lemma {:induction false} SavedReportIsLatest<V>(t: Table<V>, r: WeatherReport<V>, fault: Fault)
    requires IndexOf(t.rows, r.oid).None?
    requires !fault.ConnectFails?
    requires forall j :: 0 <= j < |t.rows| ==> t.rows[j].timestamp < r.timestamp
    ensures var after := Upsert(t, r, fault).table;
            forall x :: IsLatest(after.rows, x) ==>
              x == WeatherReport(t.nextId, r.oid, Written(r.metrics, fault), r.deviceType, r.timestamp)
  {
    var after := Upsert(t, r, fault).table;
    UpsertNewOid(t, r, fault);
    forall x | IsLatest(after.rows, x)
      ensures x == after.rows[|t.rows|]
    {
      var j :| 0 <= j < |after.rows| && after.rows[j] == x;
      assert after.rows[|t.rows|].timestamp <= x.timestamp;
      if j < |t.rows| {
        assert false;
      }
    }
  }

  // ---------------------------------------------------------------------
  // Steps of save's column loop
  // ---------------------------------------------------------------------

  lemma OverlayNothing<V>(rows: seq<WeatherReport<V>>, oid: string)
    ensures Overlay(rows, oid, map[]) == rows
  {
    forall j | 0 <= j < |rows| ensures Overlay(rows, oid, map[])[j] == rows[j] {
      assert rows[j].metrics + map[] == rows[j].metrics;
    }
  }

  /** Two UPDATEs of the same oid amount to one with both sets of columns. */
  lemma OverlayTwice<V>(rows: seq<WeatherReport<V>>, oid: string, w1: Metrics<V>, w2: Metrics<V>)
    ensures Overlay(Overlay(rows, oid, w1), oid, w2) == Overlay(rows, oid, w1 + w2)
  {
    forall j | 0 <= j < |rows|
      ensures Overlay(Overlay(rows, oid, w1), oid, w2)[j] == Overlay(rows, oid, w1 + w2)[j]
    {
      assert rows[j].metrics + w1 + w2 == rows[j].metrics + (w1 + w2);
    }
  }

  /** Moving one column further along Columns adds that column when present. */
  lemma PrefixStep<V>(m: Metrics<V>, i: nat)
    requires i < |Columns|
    ensures Columns[i] in m ==> Prefix(m, i + 1) == Prefix(m, i) + map[Columns[i] := m[Columns[i]]]
    ensures Columns[i] !in m ==> Prefix(m, i + 1) == Prefix(m, i)
  {
    assert Position(Columns[i]) == i;
    forall k ensures k in Prefix(m, i + 1) <==> k in Prefix(m, i) || (k == Columns[i] && k in m) {
      assert Columns[Position(k)] == k;
    }
  }

  /** One pass of save's column loop: writing column i (when present) extends the written prefix. */
  lemma ColumnStep<V>(rows: seq<WeatherReport<V>>, oid: string, m: Metrics<V>, i: nat)
    requires i < |Columns| && Columns[i] in m
    ensures Overlay(Overlay(rows, oid, Prefix(m, i)), oid, map[Columns[i] := m[Columns[i]]])
            == Overlay(rows, oid, Prefix(m, i + 1))
  {
    PrefixStep(m, i);
    OverlayTwice(rows, oid, Prefix(m, i), map[Columns[i] := m[Columns[i]]]);
  }

  /** A run that got through every column without a failing UPDATE wrote all present metrics. */
  lemma CompletedRun<V>(m: Metrics<V>, fault: Fault)
    requires !fault.ConnectFails?
    requires fault.UpdateFails? && fault.column in m ==> |Columns| <= Position(fault.column)
    ensures Prefix(m, |Columns|) == Written(m, fault) == m
    ensures !Fails(m, fault)
  {
  }

  /** A run stopped by the failing UPDATE of column i wrote exactly the columns before it. */
  lemma StoppedRun<V>(m: Metrics<V>, fault: Fault, i: nat)
    requires i < |Columns| && Columns[i] in m
    requires fault == UpdateFails(Columns[i])
    ensures Prefix(m, i) == Written(m, fault)
    ensures Fails(m, fault)
  {
    assert Position(Columns[i]) == i;
  }

  // ---------------------------------------------------------------------
  // The table as a mutable object

  // ---------------------------------------------------------------------

  class ReportTable<V> {
    var rows: seq<WeatherReport<V>>
    var nextId: int

    ghost predicate Valid()
      reads this
    {
      ValidTable(Table(rows, nextId))
    }

    function Snapshot(): Table<V>
      reads this
    {
      Table(rows, nextId)
    }

    /** An empty table whose serial sequence starts at 1. */
    constructor ()
      ensures Valid()
      ensures rows == [] && nextId == 1
    {
      rows := [];
      nextId := 1;
    }

    /** save's existence check: the first row whose oid matches, scanning the result rows. */
    method Lookup(oid: string) returns (found: Option<nat>)
      ensures found == IndexOf(rows, oid)
    {
      var i := 0;
      while i < |rows|
        invariant 0 <= i <= |rows|
        invariant forall j :: 0 <= j < i ==> rows[j].oid != oid
      {
        if rows[i].oid == oid {
          return Some(i);
        }
        i := i + 1;
      }
      return None;
    }

    /** INSERT INTO weather_reports (oid, device_type, timestamp): a skeleton row with the next serial id. */
    method Insert(r: WeatherReport<V>)
      requires Valid()
      requires IndexOf(rows, r.oid).None?
      modifies this
      ensures Valid()
      ensures rows == old(rows) + [Skeleton(old(nextId), r)]
      ensures nextId == old(nextId) + 1
    {
      InsertedKeepsValid(Snapshot(), r);
      rows := rows + [Skeleton(nextId, r)];
      nextId := nextId + 1;
    }

    /** UPDATE weather_reports SET <column> = <value> WHERE oid = <oid>. */
    method UpdateColumn(oid: string, column: Metric, value: V)
      requires Valid()
      modifies this
      ensures Valid()
      ensures rows == Overlay(old(rows), oid, map[column := value])
      ensures nextId == old(nextId)
    {
      var i := 0;
      while i < |rows|
        invariant 0 <= i <= |rows| == |old(rows)|
        invariant forall j :: 0 <= j < i ==> rows[j] == Overlay(old(rows), oid, map[column := value])[j]
        invariant forall j :: i <= j < |rows| ==> rows[j] == old(rows)[j]
        invariant nextId == old(nextId)
      {
        if rows[i].oid == oid {
          rows := rows[i := rows[i].(metrics := rows[i].metrics[column := value])];
        }
        i := i + 1;
      }
      OverlayKeepsValid(old(Snapshot()), oid, map[column := value]);
    }

    /**
     * The seven conditional UPDATEs of save, in column order: each present
     * metric is written to every row holding the report's oid; the first
     * failing UPDATE ends the run, and what was written before it stays.
     */
    method WriteColumns(r: WeatherReport<V>, fault: Fault) returns (failed: Option<Metric>)
      requires Valid()
      requires !fault.ConnectFails?
      modifies this
      ensures Valid()
      ensures rows == Overlay(old(rows), r.oid, Written(r.metrics, fault))
      ensures nextId == old(nextId)
      ensures failed == if Fails(r.metrics, fault) then Some(fault.column) else None
    {
      OverlayNothing(rows, r.oid);
      assert Prefix(r.metrics, 0) == map[];
      var i := 0;
      while i < |Columns|
        invariant 0 <= i <= |Columns|
        invariant Valid()
        invariant nextId == old(nextId)
        invariant rows == Overlay(old(rows), r.oid, Prefix(r.metrics, i))
        invariant fault.UpdateFails? && fault.column in r.metrics ==> i <= Position(fault.column)
      {
        var column := Columns[i];
        if column in r.metrics {
          if fault == UpdateFails(column) {
            StoppedRun(r.metrics, fault, i);
            return Some(column);
          }
          assert Position(column) == i;
          ColumnStep(old(rows), r.oid, r.metrics, i);
          UpdateColumn(r.oid, column, r.metrics[column]);
        } else {
          PrefixStep(r.metrics, i);
          assert Position(column) == i;
        }
        i := i + 1;
      }
      CompletedRun(r.metrics, fault);
      return None;
    }

    /**
     * WeatherReport::save: connect, insert a skeleton row if the oid is new,
     * then write the present metrics column by column.
     */
    method Save(r: WeatherReport<V>, fault: Fault) returns (result: Result<WeatherReport<V>, StorageError>)
      requires Valid()
      modifies this
      ensures Valid()
      ensures Snapshot() == Upsert(old(Snapshot()), r, fault).table
      ensures result == Upsert(old(Snapshot()), r, fault).result
    {
      UpsertKeepsValid(Snapshot(), r, fault);
      if fault.ConnectFails? {
        return Err(ConnectionError);
      }
      var found := Lookup(r.oid);
      if found.None? {
        Insert(r);
      }
      assert Snapshot() == Inserted(old(Snapshot()), r);
      var failed := WriteColumns(r, fault);
      if failed.Some? {
        return Err(UpdateError(failed.value));
      }
      return Ok(r);
    }

    /**
     * select(Some(1), None, Some("timestamp DESC"), None): a row of greatest
     * timestamp, or None on an empty table.
     */
    method SelectLatest() returns (latest: Option<WeatherReport<V>>)
      ensures latest.None? <==> rows == []
      ensures latest.Some? ==> IsLatest(rows, latest.value)
    {
      if |rows| == 0 {
        return None;
      }
      var best := rows[0];
      var i := 1;
      while i < |rows|
        invariant 1 <= i <= |rows|
        invariant best in rows
        invariant forall j :: 0 <= j < i ==> rows[j].timestamp <= best.timestamp
      {
        if rows[i].timestamp > best.timestamp {
          best := rows[i];
        }
        i := i + 1;
      }
      return Some(best);
    }
  }
}
