/** The transfer engine: tables copied page by page through INSERT statements, while the job may be cancelled
    between any two steps. */
module Transfer {
  import opened Text
  import opened Collections
  import opened InsertSql

  type Table = seq<Row>

  datatype Status = Pending | Running | Done | Failed | Cancelled

  datatype Job = Job(tables: seq<string>, dryRun: bool, batchSize: nat, onConflict: string)

  // ---- rows on their way ----

  /** The rows of `table` from `offset` on, at most `limit` of them. */
  function Page(table: Table, offset: nat, limit: nat): Table {
    var from := if offset < |table| then offset else |table|;
    var to := if from + limit < |table| then from + limit else |table|;
    table[from..to]
  }

  function MapRow(mapper: Value -> Value, row: Row): Row {
    map c | c in row :: mapper(row[c])
  }

  function MapRows(mapper: Value -> Value, rows: Table): Table {
    seq(|rows|, i requires 0 <= i < |rows| => MapRow(mapper, rows[i]))
  }

  /** Rows as the target holds them: mapped, and read from the text of a statement. */
  function Moved(mapper: Value -> Value, rows: Table): Table {
    ShownRows(MapRows(mapper, rows))
  }

  function ShownRows(rows: Table): Table {
    seq(|rows|, i requires 0 <= i < |rows| => ShownRow(rows[i]))
  }

  /** All rows have the same columns, and no column name contains a quote. */
  ghost predicate Regular(rows: Table) {
    && (forall i, j | 0 <= i < j < |rows| :: rows[i].Keys == rows[j].Keys)
    && forall i, c | 0 <= i < |rows| && c in rows[i] :: Free(c, '"')
  }

  /** The rows a statement inserts, if its tuples fit its columns. */
  function InsertedRows(ins: Insert): Option<Table> {
    if forall i | 0 <= i < |ins.tuples| :: |ins.tuples[i]| == |ins.columns| then
      Some(seq(|ins.tuples|, i requires 0 <= i < |ins.tuples| => AsRow(ins.columns, ins.tuples[i])))
    else None
  }

  /** Every value of the rows can be read back once it is mapped and printed. */
  ghost predicate LegibleTable(mapper: Value -> Value, rows: Table) {
    forall i, c | 0 <= i < |rows| && c in rows[i] :: Legible(mapper(rows[i][c]))
  }

  lemma MappedIsLegible(mapper: Value -> Value, page: Table, columns: seq<string>)
    requires page != [] && Regular(page) && Enumerates(columns, page[0].Keys)
    ensures LegibleRows(columns, MapRows(mapper, page)) <==> LegibleTable(mapper, page)
  {
    hide Legible;
    var rows := MapRows(mapper, page);
    forall i | 0 <= i < |page| ensures page[i].Keys == page[0].Keys == rows[i].Keys {
    }
    if LegibleRows(columns, rows) {
      forall i, c | 0 <= i < |page| && c in page[i] ensures Legible(mapper(page[i][c])) {
        assert c in page[i].Keys && c in columns;
        var k :| 0 <= k < |columns| && columns[k] == c;
        assert LegibleCells(columns, rows[i]) && Get(rows[i], columns[k]) == mapper(page[i][c]);
      }
    }
    if LegibleTable(mapper, page) {
      forall i, k | 0 <= i < |rows| && 0 <= k < |columns| ensures Legible(Get(rows[i], columns[k])) {
        assert columns[k] in columns && columns[k] in page[i];
      }
    }
  }

  lemma MoreLegible(mapper: Value -> Value, table: Table, offset: nat, limit: nat)
    requires offset <= |table| && LegibleTable(mapper, table[..offset])
    requires LegibleTable(mapper, Page(table, offset, limit))
    ensures offset + |Page(table, offset, limit)| <= |table|
    ensures LegibleTable(mapper, table[..offset + |Page(table, offset, limit)|])
  {
    hide Legible;
    var page := Page(table, offset, limit);
    forall i, c | 0 <= i < offset + |page| && c in table[i] ensures Legible(mapper(table[i][c])) {
      if i < offset {
        assert table[..offset][i] == table[i];
      } else {
        assert page[i - offset] == table[i];
      }
    }
  }

  /** The statement generated for a page inserts exactly its rows, unless some value is illegible. */
  lemma PageIsInserted(table: string, columns: seq<string>, rows: Table, postgres: bool)
    requires rows != [] && Free(table, '"') && Regular(rows) && Enumerates(columns, rows[0].Keys)
    ensures var ins := ReadInsert(InsertText(table, columns, rows, postgres));
      && (ins.Some? <==> LegibleRows(columns, rows))
      && (ins.Some? ==> ins.value.table == table && InsertedRows(ins.value) == Some(ShownRows(rows)))
  {
    hide ReadInsert, InsertText, AsRow, ShownRow, LegibleRows;
    forall i | 0 <= i < |columns| ensures Free(columns[i], '"') {
      assert columns[i] in columns && columns[i] in rows[0];
    }
    InsertReadsBack(table, columns, rows, postgres);
    var tuples := TuplesOf(columns, rows);
    forall i | 0 <= i < |rows| ensures |tuples[i]| == |columns| && AsRow(columns, tuples[i]) == ShownRow(rows[i]) {
      assert rows[i].Keys == rows[0].Keys;
      RowReadsBackExactly(columns, rows[i]);
    }
    var ins := Insert(table, columns, tuples, postgres);
    assert InsertedRows(ins).value == ShownRows(rows);
  }

  lemma MappedPage(mapper: Value -> Value, table: Table, offset: nat, limit: nat)
    requires Regular(table) && offset <= |table|
    ensures var rows := MapRows(mapper, Page(table, offset, limit));
      && Regular(rows) && |rows| == |Page(table, offset, limit)| && offset + |rows| <= |table|
      && (rows == [] <==> offset == |table| || limit == 0)
      && |Moved(mapper, table)| == |table|
      && ShownRows(rows) == Moved(mapper, table)[offset..offset + |rows|]
  {
    hide ShownRow;
    var page := Page(table, offset, limit);
    var rows := MapRows(mapper, page);
    forall i | 0 <= i < |rows| ensures rows[i].Keys == table[offset + i].Keys {
    }
  }

  // ---- databases ----

  function RowsOf(tables: map<string, Table>, t: string): Table {
    if t in tables then tables[t] else []
  }

  /** The tables whose truncation fails, and those whose rows cannot be counted. */
  datatype Troubles = Troubles(stuck: set<string>, uncounted: set<string>)

  /** A database; any call on it may fail, and then changes nothing. Which truncations and counts fail is given;
      besides, they may fail in an interrupted context. */
  class Database {
    const troubles: Troubles
    var tables: map<string, Table>
    ghost var failures: nat

    constructor (tables: map<string, Table>, troubles: Troubles)
      ensures this.tables == tables && this.troubles == troubles && failures == 0
    {
      this.tables, this.troubles, failures := tables, troubles, 0;
    }

    method ReadPage(t: string, offset: nat, limit: nat) returns (ok: bool, rows: Table)
      modifies this`failures
      ensures failures == if ok then old(failures) else old(failures) + 1
      ensures ok ==> t in tables && rows == Page(tables[t], offset, limit)
    {
      if * {
        if t in tables {
          return true, Page(tables[t], offset, limit);
        }
      }
      failures := failures + 1;
      return false, [];
    }

    /** The number of rows; the caller takes a failure for zero. */
    method CountRows(t: string, interrupted: bool) returns (count: nat)
      modifies this`failures
      ensures (count == |RowsOf(tables, t)| && t !in troubles.uncounted) || (count == 0 && failures > old(failures))
      ensures count == 0 ==> RowsOf(tables, t) == [] || t in troubles.uncounted || interrupted
      ensures failures >= old(failures)
    {
      if t !in tables || t in troubles.uncounted {
        failures := failures + 1;
        return 0;
      }
      if * {
        if interrupted {
          failures := failures + 1;
          return 0;
        }
      }
      return |tables[t]|;
    }

    /** CREATE TABLE IF NOT EXISTS. */
    method CreateTable(t: string) returns (ok: bool)
      modifies this
      ensures failures == if ok then old(failures) else old(failures) + 1
      ensures tables == if ok then old(tables)[t := RowsOf(old(tables), t)] else old(tables)
    {
      if * {
        tables := tables[t := RowsOf(tables, t)];
        return true;
      }
      failures := failures + 1;
      return false;
    }

    method Truncate(t: string, interrupted: bool) returns (ok: bool)
      modifies this
      ensures ok ==> t in old(tables) && t !in troubles.stuck
      ensures !ok ==> t !in old(tables) || t in troubles.stuck || interrupted
      ensures failures == if ok then old(failures) else old(failures) + 1
      ensures tables == if ok then old(tables)[t := []] else old(tables)
    {
      ok := t in tables && t !in troubles.stuck;
      if * {
        ok := ok && !interrupted;
      }
      if ok {
        tables := tables[t := []];
      } else {
        failures := failures + 1;
      }
    }

    /** Runs an INSERT statement given as text. */
    method ExecuteInsert(sql: string) returns (ok: bool)
      modifies this
      ensures failures == if ok then old(failures) else old(failures) + 1
      ensures !ok ==> tables == old(tables)
      ensures ok ==>
        && ReadInsert(sql).Some? && ReadInsert(sql).value.table in old(tables)
        && InsertedRows(ReadInsert(sql).value).Some?
        && var ins := ReadInsert(sql).value;
           tables == old(tables)[ins.table := old(tables)[ins.table] + InsertedRows(ins).value]
    {
      if * {
        var ins := ReadInsert(sql);
        if ins.Some? && ins.value.table in tables && InsertedRows(ins.value).Some? {
          var t := ins.value.table;
          tables := tables[t := tables[t] + InsertedRows(ins.value).value];
          return true;
        }
      }
      failures := failures + 1;
      return false;
    }
  }

  // ---- jobs ----

  class JobState {
    const job: Job
    var status: Status
    var log: seq<string>
    var tables: seq<string>
    /** The context of the job has been cancelled. */
    var cancelled: bool
    /** How many INSERT statements were issued after that. */
    ghost var lateInserts: nat

    /** A batch size that is not positive stands for 100. */
    constructor (tables: seq<string>, dryRun: bool, batchSize: int, onConflict: string)
      ensures Valid() && status == Pending && log == [] && !cancelled && lateInserts == 0
      ensures job == Job(tables, dryRun, if batchSize <= 0 then 100 else batchSize, onConflict)
    {
      job := Job(tables, dryRun, if batchSize <= 0 then 100 else batchSize, onConflict);
      status, log, this.tables, cancelled, lateInserts := Pending, [], [], false, 0;
    }

    /** At most one INSERT statement was issued after the job was cancelled; its context is cancelled with it. */
    ghost predicate Valid()
      reads this
    {
      lateInserts <= 1 && (lateInserts > 0 ==> cancelled) && (status == Cancelled ==> cancelled)
    }

    method Log(msg: string)
      modifies this`log
      ensures log == old(log) + [msg]
    {
      log := log + [msg];
    }

    method Fail(msg: string)
      modifies this`log, this`status
      ensures log == old(log) + ["FAILED: " + msg] && status == Failed
    {
      log := log + ["FAILED: " + msg];
      status := Failed;
    }

    method Cancel()
      modifies this`status, this`cancelled
      ensures status == Cancelled && cancelled
    {
      status := Cancelled;
      cancelled := true;
    }

    /** What others may do to the job between two steps of its run: nothing, cancel it, or cancel the context
        it was started in. */
    method Interrupt()
      modifies this`status, this`cancelled
      ensures old(cancelled) ==> cancelled
      ensures status == old(status) || (status == Cancelled && cancelled)
    {
      if * {
        Cancel();
      } else if * {
        cancelled := true;
      }
    }
  }

  /** Table `t` has got the first `total` of the moved rows, after those it had, and no other table changed. */
  ghost predicate HasFirst(
    before: map<string, Table>, after: map<string, Table>, t: string, moved: Table, total: nat)
  {
    && total <= |moved|
    && RowsOf(after, t) == RowsOf(before, t) + moved[..total]
    && forall u | u != t :: RowsOf(after, u) == RowsOf(before, u)
  }

  lemma HasNone(before: map<string, Table>, t: string, moved: Table)
    ensures HasFirst(before, before, t, moved, 0)
  {
  }

  lemma HasMore(
    before: map<string, Table>, after: map<string, Table>, t: string, moved: Table, total: nat, more: nat)
    requires HasFirst(before, after, t, moved, total) && t in after && total + more <= |moved|
    ensures HasFirst(before, after[t := after[t] + moved[total..total + more]], t, moved, total + more)
  {
    assert moved[..total] + moved[total..total + more] == moved[..total + more];
  }

  lemma SameColumns(mapper: Value -> Value, page: Table)
    requires page != []
    ensures MapRows(mapper, page)[0].Keys == page[0].Keys
  {
  }

  /** Inserts one page; the target gets all of it or nothing, and nothing if it has an illegible value. */
  method InsertPage(
    js: JobState, target: Database, mapper: Value -> Value, postgres: bool, t: string, page: Table)
    returns (ok: bool)
    requires page != [] && Free(t, '"') && Regular(page) && Regular(MapRows(mapper, page))
    requires js.Valid() && js.lateInserts == 0
    modifies js`status, js`cancelled, js`lateInserts, target
    ensures js.Valid() && (old(js.cancelled) ==> js.cancelled)
    ensures js.status == old(js.status) || (js.status == Cancelled && js.cancelled)
    ensures target.failures == if ok then old(target.failures) else old(target.failures) + 1
    ensures !ok ==> target.tables == old(target.tables)
    ensures ok ==> LegibleTable(mapper, page)
    ensures ok ==>
      && t in old(target.tables)
      && target.tables == old(target.tables)[t := old(target.tables)[t] + ShownRows(MapRows(mapper, page))]
  {
    hide ReadInsert, InsertText, Regular, Enumerates, InsertedRows, ShownRows, LegibleTable, LegibleRows;
    var mappedRows := MapRows(mapper, page);
    var sql, columns := GenerateInsertSQL(t, mappedRows, postgres);
    SameColumns(mapper, page);
    MappedIsLegible(mapper, page, columns);
    PageIsInserted(t, columns, mappedRows, postgres);
    js.Interrupt();
    if js.cancelled {
      js.lateInserts := js.lateInserts + 1;
    }
    ok := target.ExecuteInsert(sql);
  }

  lemma NothingIllegible(mapper: Value -> Value, rows: Table)
    ensures LegibleTable(mapper, rows[..0])
  {
  }

  lemma PageIsRegular(rows: Table, offset: nat, limit: nat)
    requires Regular(rows)
    ensures Regular(Page(rows, offset, limit))
  {
    var from := if offset < |rows| then offset else |rows|;
    var page := Page(rows, offset, limit);
    assert forall i | 0 <= i < |page| :: page[i] == rows[from + i];
  }

  ghost function Failures(source: Database, target: Database): nat
    reads source, target
  {
    source.failures + target.failures
  }

  /** Copies one table page by page. Whatever stops it, the target has got exactly the first `total` rows; a table
      with an illegible value is never copied to its end. */
  method TransferTable(
    js: JobState, source: Database, target: Database, mapper: Value -> Value, postgres: bool, t: string)
    returns (total: nat, ok: bool)
    requires source != target && js.job.batchSize > 0 && js.Valid()
    requires Free(t, '"') && Regular(RowsOf(source.tables, t))
    modifies js`status, js`cancelled, js`lateInserts, target, source`failures
    ensures js.Valid() && (old(js.cancelled) ==> js.cancelled)
    ensures js.status == old(js.status) || (js.status == Cancelled && js.cancelled)
    ensures HasFirst(old(target.tables), target.tables, t, Moved(mapper, RowsOf(source.tables, t)), total)
    ensures |Moved(mapper, RowsOf(source.tables, t))| == |RowsOf(source.tables, t)|
    ensures ok ==> total == |RowsOf(source.tables, t)| && LegibleTable(mapper, RowsOf(source.tables, t))
    ensures !ok ==> js.cancelled || Failures(source, target) > old(Failures(source, target))
    ensures Failures(source, target) >= old(Failures(source, target))
    ensures old(js.cancelled) ==> !ok && total == 0 && js.lateInserts == old(js.lateInserts)
  {
    hide Regular, MapRows, ShownRows, Page, Moved, HasFirst, LegibleTable;
    var batchSize := js.job.batchSize;
    ghost var rows := RowsOf(source.tables, t);
    ghost var moved := Moved(mapper, rows);
    var offset := 0;
    total := 0;
    MappedPage(mapper, rows, 0, 0);
    NothingIllegible(mapper, rows);
    HasNone(target.tables, t, moved);
    while true
      invariant total == offset <= |rows| && |moved| == |rows|
      invariant js.Valid() && (old(js.cancelled) ==> js.cancelled)
      invariant js.status == old(js.status) || (js.status == Cancelled && js.cancelled)
      invariant LegibleTable(mapper, rows[..total])
      invariant old(js.cancelled) ==> total == 0 && js.lateInserts == old(js.lateInserts)
      invariant Failures(source, target) == old(Failures(source, target))
      invariant HasFirst(old(target.tables), target.tables, t, moved, total)
      decreases |rows| - offset
    {
      js.Interrupt();
      if js.cancelled {
        return total, false;
      }
      js.Interrupt();
      var read, page := source.ReadPage(t, offset, batchSize);
      if !read {
        return total, false;
      }
      MappedPage(mapper, rows, offset, batchSize);
      PageIsRegular(rows, offset, batchSize);
      if |page| == 0 {
        assert rows[..total] == rows;
        break;
      }
      ghost var was := target.tables;
      var inserted := InsertPage(js, target, mapper, postgres, t, page);
      if !inserted {
        return total, false;
      }
      HasMore(old(target.tables), was, t, moved, total, |page|);
      MoreLegible(mapper, rows, offset, batchSize);
      total := total + |page|;
      offset := offset + |page|;
    }
    return total, true;
  }

  // ---- the run of a job ----

  /** The rows a table starts the copy with: under `overwrite` none, unless truncating it fails. */
  function BaseRows(onConflict: string, troubles: Troubles, t: string, before: Table): Table {
    if onConflict == "overwrite" && t !in troubles.stuck then [] else before
  }

  /** A table that `skip` leaves alone: it has rows, and they can be counted. */
  predicate Skips(onConflict: string, troubles: Troubles, t: string, before: Table) {
    onConflict == "skip" && t !in troubles.uncounted && before != []
  }

  /** What a table holds once it is done. */
  function FinalRows(onConflict: string, troubles: Troubles, t: string, before: Table, moved: Table): Table {
    if Skips(onConflict, troubles, t, before) then before else BaseRows(onConflict, troubles, t, before) + moved
  }

  /** What a table holds if it is not done: what it held, or some first rows were added to what it starts with. */
  ghost predicate TableBroken(
    onConflict: string, troubles: Troubles, t: string, before: Table, after: Table, moved: Table)
  {
    || after == before
    || (!Skips(onConflict, troubles, t, before)
        && exists n :: 0 <= n <= |moved| && after == BaseRows(onConflict, troubles, t, before) + moved[..n])
  }

  lemma CopyEnds(
    onConflict: string, troubles: Troubles, was: map<string, Table>, ready: map<string, Table>,
    after: map<string, Table>, t: string, moved: Table, total: nat)
    requires !Skips(onConflict, troubles, t, RowsOf(was, t))
    requires RowsOf(ready, t) == BaseRows(onConflict, troubles, t, RowsOf(was, t))
    requires HasFirst(ready, after, t, moved, total)
    ensures TableBroken(onConflict, troubles, t, RowsOf(was, t), RowsOf(after, t), moved)
    ensures total == |moved| ==> RowsOf(after, t) == FinalRows(onConflict, troubles, t, RowsOf(was, t), moved)
    ensures forall u | u != t :: RowsOf(after, u) == RowsOf(ready, u)
  {
    assert moved[..|moved|] == moved;
  }

  /** The strategy calls for something the target cannot do. */
  predicate Hampered(onConflict: string, troubles: Troubles, t: string) {
    (onConflict == "overwrite" && t in troubles.stuck) || (onConflict == "skip" && t in troubles.uncounted)
  }

  /** Creates one table on the target and applies the conflict strategy; only in a cancelled context may that be
      left undone without being hampered. */
  method PrepareTable(js: JobState, target: Database, t: string) returns (skipped: bool)
    modifies js`log, js`status, js`cancelled, target
    ensures old(js.cancelled) ==> js.cancelled
    ensures js.status == old(js.status) || (js.status == Cancelled && js.cancelled)
    ensures old(js.log) <= js.log && target.failures >= old(target.failures)
    ensures forall u | u != t :: RowsOf(target.tables, u) == RowsOf(old(target.tables), u)
    ensures var was, now := RowsOf(old(target.tables), t), RowsOf(target.tables, t);
      && (skipped ==> Skips(js.job.onConflict, target.troubles, t, was) && now == was)
      && (!skipped && !js.cancelled ==>
            !Skips(js.job.onConflict, target.troubles, t, was)
            && now == BaseRows(js.job.onConflict, target.troubles, t, was))
      && (now == was || now == BaseRows(js.job.onConflict, target.troubles, t, was))
    ensures Hampered(js.job.onConflict, target.troubles, t) ==> target.failures > old(target.failures)
  {
    hide RowsOf;
    ghost var was := target.tables;
    js.Log("Creating table");
    js.Interrupt();
    var created := target.CreateTable(t);
    CreatedHasTheSame(was, t);
    if !created {
      js.Log("Create table error (may already exist)");
    }
    js.Interrupt();
    if js.job.onConflict == "overwrite" {
      js.Log("Truncating existing data");
      TruncatedHasNone(target.tables, t);
      var truncated := target.Truncate(t, js.cancelled);
      return false;
    } else if js.job.onConflict == "skip" {
      var count := target.CountRows(t, js.cancelled);
      if count > 0 {
        js.Log("Skipping");
        return true;
      }
    }
    return false;
  }

  lemma CreatedHasTheSame(tables: map<string, Table>, t: string)
    ensures forall u :: RowsOf(tables[t := RowsOf(tables, t)], u) == RowsOf(tables, u)
  {
  }

  lemma TruncatedHasNone(tables: map<string, Table>, t: string)
    ensures RowsOf(tables[t := []], t) == [] && (t !in tables ==> RowsOf(tables, t) == [])
    ensures forall u | u != t :: RowsOf(tables[t := []], u) == RowsOf(tables, u)
  {
  }

  /** One table of a run: prepared, and copied unless it is skipped. */
  method CopyTable(
    js: JobState, source: Database, target: Database, mapper: Value -> Value, postgres: bool, t: string)
    returns (ok: bool)
    requires source != target && js.job.batchSize > 0 && js.Valid()
    requires Free(t, '"') && Regular(RowsOf(source.tables, t))
    modifies js, target, source`failures
    ensures js.Valid() && (old(js.cancelled) ==> js.cancelled)
    ensures js.status == old(js.status) || (js.status == Cancelled && js.cancelled)
    ensures old(js.log) <= js.log && js.tables == old(js.tables)
    ensures forall u | u != t :: RowsOf(target.tables, u) == RowsOf(old(target.tables), u)
    ensures
      var was, now := RowsOf(old(target.tables), t), RowsOf(target.tables, t);
      var moved := Moved(mapper, RowsOf(source.tables, t));
      if ok then now == FinalRows(js.job.onConflict, target.troubles, t, was, moved)
      else TableBroken(js.job.onConflict, target.troubles, t, was, now, moved)
    ensures !ok ==> js.cancelled || Failures(source, target) > old(Failures(source, target))
    ensures Failures(source, target) >= old(Failures(source, target))
    ensures Hampered(js.job.onConflict, target.troubles, t) ==>
      Failures(source, target) > old(Failures(source, target))
  {
    hide Regular, Moved, HasFirst, TableBroken, RowsOf, BaseRows, Skips, LegibleTable;
    ghost var was := target.tables;
    var skipped := PrepareTable(js, target, t);
    ghost var moved := Moved(mapper, RowsOf(source.tables, t));
    if skipped {
      return true;
    }
    ghost var ready := target.tables;
    js.Interrupt();
    js.Log("Transferring");
    ghost var stopped := js.cancelled;
    var total, copied := TransferTable(js, source, target, mapper, postgres, t);
    if stopped {
      NotCopied(js.job.onConflict, target.troubles, was, ready, target.tables, t, moved);
    } else {
      CopyEnds(js.job.onConflict, target.troubles, was, ready, target.tables, t, moved, total);
    }
    if !copied {
      return false;
    }
    js.Interrupt();
    js.Log("Done");
    return true;
  }

  lemma NotCopied(
    onConflict: string, troubles: Troubles, was: map<string, Table>, ready: map<string, Table>,
    after: map<string, Table>, t: string, moved: Table)
    requires
      var before, now := RowsOf(was, t), RowsOf(ready, t);
      now == before || now == BaseRows(onConflict, troubles, t, before)
    requires HasFirst(ready, after, t, moved, 0)
    ensures TableBroken(onConflict, troubles, t, RowsOf(was, t), RowsOf(after, t), moved)
    ensures forall u | u != t :: RowsOf(after, u) == RowsOf(ready, u)
  {
    assert moved[..0] == [];
  }

  function Selected(tables: seq<string>, names: set<string>): seq<string> {
    if tables == [] then []
    else (if tables[0] in names then [tables[0]] else []) + Selected(tables[1..], names)
  }

  /** The tables of the schema that are named, in the schema's order; all of them if none is named. */
  function TablesToCopy(schema: seq<string>, names: seq<string>): seq<string> {
    if names == [] then schema else Selected(schema, set n | n in names)
  }

  method FilterTables(schema: seq<string>, names: seq<string>) returns (filtered: seq<string>)
    ensures filtered == TablesToCopy(schema, names)
  {
    if |names| == 0 {
      return schema;
    }
    var wanted: set<string> := {};
    for i := 0 to |names|
      invariant wanted == set n | n in names[..i]
    {
      wanted := wanted + {names[i]};
    }
    assert names[..|names|] == names;
    filtered := [];
    for i := 0 to |schema|
      invariant filtered + Selected(schema[i..], wanted) == Selected(schema, wanted)
    {
      if schema[i] in wanted {
        filtered := filtered + [schema[i]];
      }
    }
  }

  lemma {:induction false} SelectedMeans(tables: seq<string>, names: set<string>)
    ensures forall t :: t in Selected(tables, names) <==> t in tables && t in names
    ensures Distinct(tables) ==> Distinct(Selected(tables, names))
  {
    if tables != [] {
      SelectedMeans(tables[1..], names);
    }
  }

  /** Exactly the named tables are copied, each once if the schema has each once. */
  lemma CopiesWhatIsNamed(schema: seq<string>, names: seq<string>)
    ensures forall t :: t in TablesToCopy(schema, names) <==> t in schema && (names == [] || t in names)
    ensures Distinct(schema) ==> Distinct(TablesToCopy(schema, names))
  {
    SelectedMeans(schema, set n | n in names);
  }

  /** What a run is about: the strategy, the target's troubles, the mapping, and the rows of source and target when
      it starts. */
  datatype Plan = Plan(
    onConflict: string, troubles: Troubles, mapper: Value -> Value, rows: map<string, Table>,
    before: map<string, Table>)
  {
    /** What table `t` holds once it is done. */
    function Final(t: string): Table {
      FinalRows(onConflict, troubles, t, RowsOf(before, t), Moved(mapper, RowsOf(rows, t)))
    }

    ghost predicate Broken(t: string, after: Table) {
      TableBroken(onConflict, troubles, t, RowsOf(before, t), after, Moved(mapper, RowsOf(rows, t)))
    }
  }

  /** The listed tables are done, and no other has changed. */
  ghost predicate TablesDone(p: Plan, after: map<string, Table>, done: seq<string>) {
    && (forall t | t in done :: RowsOf(after, t) == p.Final(t))
    && forall t | t !in done :: RowsOf(after, t) == RowsOf(p.before, t)
  }

  lemma NoTablesDone(p: Plan)
    ensures TablesDone(p, p.before, [])
  {
  }

  lemma OneMoreDone(p: Plan, middle: map<string, Table>, after: map<string, Table>, done: seq<string>, t: string)
    requires TablesDone(p, middle, done) && t !in done
    requires forall u | u != t :: RowsOf(after, u) == RowsOf(middle, u)
    requires RowsOf(after, t) == p.Final(t)
    ensures TablesDone(p, after, done + [t])
  {
    hide RowsOf;
  }

  /** How far a run got: the first tables are done, the next was broken off, the rest are untouched. */
  ghost predicate Copied(p: Plan, after: map<string, Table>, tables: seq<string>, count: nat) {
    && count <= |tables|
    && (forall t | t in tables[..count] :: RowsOf(after, t) == p.Final(t))
    && (forall t | t !in tables[..count] && (count == |tables| || t != tables[count]) ::
          RowsOf(after, t) == RowsOf(p.before, t))
    && (count < |tables| ==> p.Broken(tables[count], RowsOf(after, tables[count])))
  }

  lemma StoppedBetween(p: Plan, after: map<string, Table>, tables: seq<string>, count: nat)
    requires count <= |tables| && Distinct(tables) && TablesDone(p, after, tables[..count])
    ensures Copied(p, after, tables, count)
  {
    hide RowsOf;
    if count < |tables| {
      assert tables[count] !in tables[..count];
    }
  }

  lemma StoppedWithin(
    p: Plan, middle: map<string, Table>, after: map<string, Table>, tables: seq<string>, count: nat)
    requires count < |tables| && Distinct(tables) && TablesDone(p, middle, tables[..count])
    requires forall u | u != tables[count] :: RowsOf(after, u) == RowsOf(middle, u)
    requires p.Broken(tables[count], RowsOf(after, tables[count]))
    ensures Copied(p, after, tables, count)
  {
    hide RowsOf;
    assert tables[count] !in tables[..count];
    assert forall t | t in tables[..count] :: t != tables[count];
  }

  /** A table name and rows the printed statements can carry. */
  ghost predicate Printable(rows: map<string, Table>, tables: seq<string>) {
    forall i | 0 <= i < |tables| :: Free(tables[i], '"') && Regular(RowsOf(rows, tables[i]))
  }

  /** The call that fetches the names of the source's tables. */
  method FetchSchema(source: Database) returns (ok: bool)
    modifies source`failures
    ensures source.failures == if ok then old(source.failures) else old(source.failures) + 1
  {
    if * {
      return true;
    }
    source.failures := source.failures + 1;
    return false;
  }

  /** The end of a dry run. */
  method DryRun(js: JobState, tables: seq<string>)
    requires js.Valid()
    modifies js`log, js`status, js`cancelled
    ensures js.Valid() && js.status in {Done, Cancelled}
    ensures old(js.log) <= js.log && (old(js.cancelled) ==> js.cancelled)
  {
    js.Log("DRY RUN");
    for i := 0 to |tables|
      invariant old(js.log) <= js.log && js.Valid() && (old(js.cancelled) ==> js.cancelled)
    {
      js.Log("CREATE TABLE " + tables[i]);
      js.Log("Would transfer rows");
      js.Interrupt();
    }
    js.status := Done;
    js.Interrupt();
  }

  ghost function PlanOf(js: JobState, source: Database, target: Database, mapper: Value -> Value): Plan
    reads source, target
  {
    Plan(js.job.onConflict, target.troubles, mapper, source.tables, target.tables)
  }

  /** The tables of a run, one after another. The ghost results say whether the run came to its regular end, and how
      many tables it completed. */
  method CopyTables(
    js: JobState, source: Database, target: Database, mapper: Value -> Value, postgres: bool, tables: seq<string>)
    returns (ghost finished: bool, ghost count: nat)
    requires source != target && js.job.batchSize > 0 && js.Valid() && Distinct(tables)
    requires Printable(source.tables, tables)
    modifies js, target, source`failures
    ensures js.Valid() && old(js.log) <= js.log && (old(js.cancelled) ==> js.cancelled)
    ensures js.lateInserts <= 1 && (js.lateInserts > 0 ==> js.cancelled)
    ensures js.status == Cancelled || js.status == if finished then Done else Failed
    ensures Copied(old(PlanOf(js, source, target, mapper)), target.tables, tables, count)
    ensures finished ==> count == |tables| && js.tables == tables
    ensures !finished ==> js.cancelled || Failures(source, target) > old(Failures(source, target))
    ensures old(js.cancelled) && tables != [] ==>
      !finished && js.lateInserts == old(js.lateInserts) && target.tables == old(target.tables)
    ensures Failures(source, target) >= old(Failures(source, target))
    ensures finished && Failures(source, target) == old(Failures(source, target)) ==>
      forall t | t in tables :: !Hampered(js.job.onConflict, target.troubles, t)
  {
    hide Copied, TablesDone, TableBroken, FinalRows, Moved, RowsOf, Regular, Hampered;
    finished, count := false, 0;
    ghost var p := PlanOf(js, source, target, mapper);
    NoTablesDone(p);
    for i := 0 to |tables|
      invariant old(js.log) <= js.log && js.Valid() && (old(js.cancelled) ==> js.cancelled)
      invariant old(js.cancelled) ==> i == 0 && js.lateInserts == old(js.lateInserts) && target.tables == p.before
      invariant Failures(source, target) >= old(Failures(source, target))
      invariant Failures(source, target) == old(Failures(source, target)) ==>
        forall t | t in tables[..i] :: !Hampered(p.onConflict, p.troubles, t)
      invariant TablesDone(p, target.tables, tables[..i])
    {
      count := i;
      js.Interrupt();
      if js.cancelled {
        js.Fail("cancelled");
        StoppedBetween(p, target.tables, tables, i);
        js.Interrupt();
        return;
      }
      ghost var middle := target.tables;
      TableUntouched(p, middle, tables, i);
      var ok := CopyTable(js, source, target, mapper, postgres, tables[i]);
      js.Interrupt();
      if !ok {
        StoppedWithin(p, middle, target.tables, tables, i);
        js.Fail("transfer failed");
        js.Interrupt();
        return;
      }
      assert tables[..i + 1] == tables[..i] + [tables[i]];
      OneMoreDone(p, middle, target.tables, tables[..i], tables[i]);
    }
    count := |tables|;
    assert tables[..|tables|] == tables;
    StoppedBetween(p, target.tables, tables, |tables|);
    js.status := Done;
    js.tables := tables;
    js.Interrupt();
    js.Log("Transfer complete");
    js.Interrupt();
    finished := true;
  }

  lemma TableUntouched(p: Plan, after: map<string, Table>, tables: seq<string>, i: nat)
    requires i < |tables| && Distinct(tables) && TablesDone(p, after, tables[..i])
    ensures tables[i] !in tables[..i] && RowsOf(after, tables[i]) == RowsOf(p.before, tables[i])
  {
    hide RowsOf;
  }

  /** The table holds exactly the rows of its source, mapped. */
  predicate EqualsSource(p: Plan, after: map<string, Table>, t: string) {
    RowsOf(after, t) == Moved(p.mapper, RowsOf(p.rows, t))
  }

  /** The run of a job. `schema` names the tables of the source; the call that fetches it may fail. */
  method Run(
    js: JobState, source: Database, target: Database, mapper: Value -> Value, postgres: bool, schema: seq<string>)
    returns (ghost finished: bool, ghost count: nat)
    requires source != target && js.job.batchSize > 0 && js.Valid() && Distinct(schema)
    requires Printable(source.tables, TablesToCopy(schema, js.job.tables))
    modifies js, target, source`failures
    ensures js.Valid() && old(js.log) <= js.log && (old(js.cancelled) ==> js.cancelled)
    ensures js.lateInserts <= 1 && (js.lateInserts > 0 ==> js.cancelled)
    ensures js.status == Cancelled || js.status == if finished then Done else Failed
    ensures var tables := TablesToCopy(schema, js.job.tables);
      && Copied(old(PlanOf(js, source, target, mapper)), target.tables, tables, count)
      && (finished && !js.job.dryRun ==> count == |tables| && js.tables == tables)
      && (js.job.dryRun ==> count == 0 && target.tables == old(target.tables))
      && (old(js.cancelled) && tables != [] && !js.job.dryRun ==>
            !finished && js.lateInserts == old(js.lateInserts) && target.tables == old(target.tables))
      && (finished && !js.job.dryRun && js.job.onConflict == "overwrite" ==> forall t | t in tables ::
            EqualsSource(old(PlanOf(js, source, target, mapper)), target.tables, t)
            <==> t !in target.troubles.stuck || RowsOf(old(target.tables), t) == [])
    ensures finished && !js.job.dryRun ==> forall t | t in TablesToCopy(schema, js.job.tables) ::
      var was, now := RowsOf(old(target.tables), t), RowsOf(target.tables, t);
      var moved := Moved(mapper, RowsOf(source.tables, t));
      && (js.job.onConflict == "skip" && t !in target.troubles.uncounted ==> now == if was != [] then was else moved)
      && (js.job.onConflict == "overwrite" && t !in target.troubles.stuck ==> now == moved)
      && (js.job.onConflict !in {"skip", "overwrite"} ==> now == was + moved)
    ensures !finished ==> js.cancelled || Failures(source, target) > old(Failures(source, target))
    ensures !js.cancelled && Failures(source, target) == old(Failures(source, target)) ==> js.status == Done
    ensures
      !js.cancelled && Failures(source, target) == old(Failures(source, target))
      && js.job.onConflict == "overwrite" && !js.job.dryRun ==>
        forall t | t in TablesToCopy(schema, js.job.tables) ::
          EqualsSource(old(PlanOf(js, source, target, mapper)), target.tables, t)
  {
    hide Copied, TablesDone, EqualsSource, Moved, RowsOf, Regular, TablesToCopy, Printable, Distinct;
    finished, count := false, 0;
    ghost var p := PlanOf(js, source, target, mapper);
    ghost var chosen := TablesToCopy(schema, js.job.tables);
    CopiesWhatIsNamed(schema, js.job.tables);
    NothingCopied(p, chosen);
    js.Interrupt();
    js.status := Running;
    js.Log("Starting transfer");
    js.Interrupt();
    js.Log("Fetching source schema");
    var fetched := FetchSchema(source);
    js.Interrupt();
    if !fetched {
      js.Fail("source schema");
      js.Interrupt();
      return;
    }
    var tables := FilterTables(schema, js.job.tables);
    js.Log("Found tables to transfer");
    js.Interrupt();
    if js.job.dryRun {
      DryRun(js, tables);
      finished := true;
      return;
    }
    finished, count := CopyTables(js, source, target, mapper, postgres, tables);
    if finished {
      FinishedRunHolds(p, target.tables, chosen);
    }
  }

  lemma NothingCopied(p: Plan, tables: seq<string>)
    requires Distinct(tables)
    ensures Copied(p, p.before, tables, 0)
  {
    hide Copied, RowsOf;
    NoTablesDone(p);
    assert tables[..0] == [];
    StoppedBetween(p, p.before, tables, 0);
  }

  /** What the tables of a finished run hold, by strategy and failing calls. A table with rows is left alone by `skip`
      if its rows can be counted; `overwrite` drops the old rows if the table can be truncated; whatever else is said,
      the moved source goes behind the old rows. */
  lemma {:induction false} FinishedTablesHold(p: Plan, after: map<string, Table>, tables: seq<string>, t: string)
    requires Copied(p, after, tables, |tables|) && t in tables
    ensures var was, now, moved := RowsOf(p.before, t), RowsOf(after, t), Moved(p.mapper, RowsOf(p.rows, t));
      && (p.onConflict == "skip" && t !in p.troubles.uncounted ==> now == if was != [] then was else moved)
      && (p.onConflict == "skip" && t in p.troubles.uncounted ==> now == was + moved)
      && (p.onConflict == "overwrite" && t !in p.troubles.stuck ==> now == moved)
      && (p.onConflict == "overwrite" && t in p.troubles.stuck ==> now == was + moved)
      && (p.onConflict != "skip" && p.onConflict != "overwrite" ==> now == was + moved)
  {
    hide Moved, RowsOf;
    assert tables[..|tables|] == tables;
    assert [] + Moved(p.mapper, RowsOf(p.rows, t)) == Moved(p.mapper, RowsOf(p.rows, t));
  }

  /** What an unfinished run leaves: the next table as it was, or with some first rows behind those it starts with,
      and a table that `skip` leaves alone as it was; the tables after it untouched. */
  lemma {:induction false} UnfinishedRunLeaves(p: Plan, after: map<string, Table>, tables: seq<string>, count: nat)
    requires Copied(p, after, tables, count) && count < |tables|
    ensures var t := tables[count];
      var was, now, moved := RowsOf(p.before, t), RowsOf(after, t), Moved(p.mapper, RowsOf(p.rows, t));
      && (now == was
          || exists n :: 0 <= n <= |moved|
               && now == (if p.onConflict == "overwrite" && t !in p.troubles.stuck then [] else was) + moved[..n])
      && (p.onConflict == "skip" && t !in p.troubles.uncounted && was != [] ==> now == was)
    ensures forall u | u !in tables[..count] && u != tables[count] :: RowsOf(after, u) == RowsOf(p.before, u)
  {
    hide Moved, RowsOf;
  }

  /** A moved row has the columns of its source, with the mapped values as they are read from a statement. */
  lemma MovedMeans(mapper: Value -> Value, rows: Table, i: nat)
    requires i < |rows|
    ensures |Moved(mapper, rows)| == |rows| && Moved(mapper, rows)[i].Keys == rows[i].Keys
    ensures forall c | c in rows[i] :: Moved(mapper, rows)[i][c] == Shown(mapper(rows[i][c]))
  {
    hide Shown;
  }

  /** After a finished overwriting run a selected table equals its source, mapped, exactly if it can be truncated or
      had no rows. */
  lemma {:induction false} OverwriteGivesTheSourceExactly(
    p: Plan, after: map<string, Table>, tables: seq<string>, t: string)
    requires p.onConflict == "overwrite" && Copied(p, after, tables, |tables|) && t in tables
    ensures EqualsSource(p, after, t) <==> t !in p.troubles.stuck || RowsOf(p.before, t) == []
  {
    hide Moved, RowsOf;
    assert tables[..|tables|] == tables;
    var was, moved := RowsOf(p.before, t), Moved(p.mapper, RowsOf(p.rows, t));
    assert RowsOf(after, t) == (if t in p.troubles.stuck then was else []) + moved;
    assert [] + moved == moved;
    if was + moved == moved {
      assert |was + moved| == |was| + |moved|;
    }
  }

  lemma FinishedRunHolds(p: Plan, after: map<string, Table>, tables: seq<string>)
    requires Copied(p, after, tables, |tables|)
    ensures forall t | t in tables ::
      var was, now, moved := RowsOf(p.before, t), RowsOf(after, t), Moved(p.mapper, RowsOf(p.rows, t));
      && (p.onConflict == "skip" && t !in p.troubles.uncounted ==> now == if was != [] then was else moved)
      && (p.onConflict == "overwrite" && t !in p.troubles.stuck ==> now == moved)
      && (p.onConflict !in {"skip", "overwrite"} ==> now == was + moved)
    ensures p.onConflict == "overwrite" ==> forall t | t in tables ::
      EqualsSource(p, after, t) <==> t !in p.troubles.stuck || RowsOf(p.before, t) == []
  {
    hide Copied, EqualsSource, Moved, RowsOf;
    forall t | t in tables
      ensures
        var was, now, moved := RowsOf(p.before, t), RowsOf(after, t), Moved(p.mapper, RowsOf(p.rows, t));
        && (p.onConflict == "skip" && t !in p.troubles.uncounted ==> now == if was != [] then was else moved)
        && (p.onConflict == "overwrite" && t !in p.troubles.stuck ==> now == moved)
        && (p.onConflict !in {"skip", "overwrite"} ==> now == was + moved)
    {
      FinishedTablesHold(p, after, tables, t);
    }
    if p.onConflict == "overwrite" {
      forall t | t in tables
        ensures EqualsSource(p, after, t) <==> t !in p.troubles.stuck || RowsOf(p.before, t) == []
      {
        OverwriteGivesTheSourceExactly(p, after, tables, t);
      }
    }
  }

  /** One table with an old row and a failing truncation: a run that ends done leaves both rows. */
  lemma OldRowsStay(mapper: Value -> Value, was: Row, row: Row, after: map<string, Table>)
    requires var p := Plan("overwrite", Troubles({"t"}, {}), mapper, map["t" := [row]], map["t" := [was]]);
      Copied(p, after, ["t"], 1)
    ensures RowsOf(after, "t") == [was, ShownRow(MapRow(mapper, row))]
    ensures RowsOf(after, "t") != Moved(mapper, [row])
    ensures !EqualsSource(
      Plan("overwrite", Troubles({"t"}, {}), mapper, map["t" := [row]], map["t" := [was]]), after, "t")
  {
    hide ShownRow, MapRow;
    assert ["t"][..1] == ["t"] && "t" in ["t"];
    assert Moved(mapper, [row]) == [ShownRow(MapRow(mapper, row))];
  }
}
