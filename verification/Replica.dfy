/**
 The client's side of the sync: its local database, its cursor, and what it
 does with the server's messages.
 */
module Replica {
  import opened Protocol
  import opened Register
  import opened Store
  import opened Windows
  import opened Snapshots
  import opened Batches

  /** The cursor is persisted only when it advances over the one in memory. */
  function SavedAfter(cursor: int, saved: int, c: int): (now: int)
    ensures c <= cursor ==> now == saved
    ensures c > cursor ==> now == c
  {
    if c > cursor then c else saved
  }

  function OnTable(ops: seq<Op>, table: Table): seq<Op> {
    if |ops| == 0 then []
    else OnTable(ops[..|ops| - 1], table) + if ops[|ops| - 1].table == table then [ops[|ops| - 1]] else []
  }

  /** The ops whose table has a registered sink. */
  function Sunk(ops: seq<Op>, sinks: set<Table>): seq<Op> {
    if |ops| == 0 then []
    else Sunk(ops[..|ops| - 1], sinks) + if ops[|ops| - 1].table in sinks then [ops[|ops| - 1]] else []
  }

  lemma WritesOnLast(k: Key, ops: seq<Op>, op: Op, kept: bool)
    ensures WritesOn(k, ops + if kept then [op] else []) == WritesOn(k, ops) + if kept then WriteOn(k, op) else []
    ensures op.table != k.table ==> WriteOn(k, op) == []
  {
    if kept {
      assert (ops + [op])[..|ops|] == ops;
    } else {
      assert ops + [] == ops;
    }
  }

  lemma {:induction false} OnTableWrites(ops: seq<Op>, table: Table, k: Key)
    ensures WritesOn(k, OnTable(ops, table)) == if k.table == table then WritesOn(k, ops) else []
  {
    if |ops| == 0 {
    } else {
      var init, op := ops[..|ops| - 1], ops[|ops| - 1];
      OnTableWrites(init, table, k);
      WritesOnLast(k, OnTable(init, table), op, op.table == table);
    }
  }

  lemma {:induction false} SunkWrites(ops: seq<Op>, sinks: set<Table>, k: Key)
    ensures WritesOn(k, Sunk(ops, sinks)) == if k.table in sinks then WritesOn(k, ops) else []
  {
    if |ops| == 0 {
    } else {
      var init, op := ops[..|ops| - 1], ops[|ops| - 1];
      SunkWrites(init, sinks, k);
      WritesOnLast(k, Sunk(init, sinks), op, op.table in sinks);
    }
  }

  lemma {:induction false} AllSunk(ops: seq<Op>, sinks: set<Table>)
    requires forall op | op in ops :: op.table in sinks
    ensures Sunk(ops, sinks) == ops
  {
    if |ops| == 0 {
    } else {
      var init, last := ops[..|ops| - 1], ops[|ops| - 1];
      AllSunk(init, sinks);
      assert last in ops;
      assert ops == init + [last];
    }
  }

  lemma {:induction false} OnTableIsOfTable(ops: seq<Op>, table: Table)
    ensures forall op | op in OnTable(ops, table) :: op.table == table && op in ops
  {
    if |ops| == 0 {
    } else {
      OnTableIsOfTable(ops[..|ops| - 1], table);
    }
  }

  lemma UntouchedTable(ops: seq<Op>, k: Key)
    requires forall op | op in ops :: op.table != k.table
    ensures WritesOn(k, ops) == []
  {
    NoWritesOffKeys(k, ops);
  }

  class Client {
    var db: Db
    var cursor: int
    /** The cursor as persisted in the client's meta table. */
    var saved: int
    const sinks: set<Table>
    /** Columns per row, which sizes an upsert chunk. */
    const columns: nat

    /** A fresh client has no cursor yet. */
    constructor (sinks: set<Table>, columns: nat)
      requires columns > 0
      ensures db == EMPTY_DB && cursor == -1 && saved == -1
      ensures this.sinks == sinks && this.columns == columns
    {
      db, cursor, saved := EMPTY_DB, -1, -1;
      this.sinks, this.columns := sinks, columns;
    }

    /** `apply_ops`: collapse one table's ops to a write per key, then run the
        deletes and the upserts in chunks; statement `failAt`, if there are that
        many, fails, and those before it stay. Undecodable upserts are skipped. */
    method ApplyOps(table: Table, ops: seq<Op>, failAt: Option<nat>) returns (ok: bool)
      requires columns > 0
      requires forall op | op in ops :: op.table == table
      modifies this`db
      ensures ok <==> failAt.None? || Statements(table, ops, columns) <= failAt.value
      ensures db == if ok then ApplyWindow(old(db), ops)
                    else AfterStatements(old(db), table, ops, columns, failAt.value)
    {
      hide Collapsed, Lists, DeletesOf, UpsertsOf, Survivors, DeleteEach, UpsertEach, AfterUpserts, ApplyWindow,
           Chunks, Covered;
      var order, last := Collapse(table, ops);
      var deletes, upserts := Split(order, last);
      CollapsedLists(table, ops, last);
      var left;
      ok, left := RunDeletes(table, deletes, failAt);
      if !ok {
        return;
      }
      ok := RunUpserts(table, upserts, left);
      CollapsedIsWindow(old(db), table, ops);
    }

    method RunDeletes(table: Table, deletes: seq<Stamp>, failAt: Option<nat>) returns (ok: bool, left: Option<nat>)
      requires DistinctStamps(deletes)
      modifies this`db
      ensures ok <==> failAt.None? || Chunks(|deletes|, 2000) <= failAt.value
      ensures db == if ok then DeleteEach(old(db), table, deletes)
                    else DeleteEach(old(db), table, deletes[..Covered(failAt.value, 2000, |deletes|)])
      ensures ok ==> left == Less(failAt, Chunks(|deletes|, PAIRS))
    {
      hide DeleteEach, DeleteRows, Chunks, Covered;
      ok, left := true, failAt;
      var i := 0;
      ghost var f := 0;
      NoDeletesYet(db, table, deletes);
      while i < |deletes|
        invariant Progress(f, PAIRS, |deletes|, i) && Left(failAt, left, f)
        invariant db == DeleteEach(old(db), table, deletes[..i])
      {
        var n := Min(PAIRS, |deletes| - i);
        NextChunk(f, PAIRS, |deletes|, i);
        if left == Some(0) {
          return false, left;
        }
        DeleteChunk(old(db), table, deletes, i, n);
        db := DeleteRows(db, table, deletes[i..i + n]);
        i, f, left := i + n, f + 1, Less(left, 1);
      }
      NoChunksLeft(f, PAIRS, |deletes|);
      assert deletes[..i] == deletes;
    }

    method RunUpserts(table: Table, upserts: seq<Row>, failAt: Option<nat>) returns (ok: bool)
      requires columns > 0 && DistinctRows(upserts)
      modifies this`db
      ensures ok <==> failAt.None? || 2 * Chunks(|upserts|, Placeholders.ChunkRows(columns)) <= failAt.value
      ensures db == if ok then UpsertEach(old(db), table, upserts)
                    else AfterUpserts(old(db), table, upserts, Placeholders.ChunkRows(columns), failAt.value)
    {
      hide UpsertEach, GuardedUpsert, UpsertAndClear, Chunks, Covered, Placeholders.ChunkRows;
      var size, i := Placeholders.ChunkRows(columns), 0;
      var left: Option<nat> := failAt;
      ok := true;
      ghost var f := 0;
      NoUpsertsYet(db, table, upserts, size);
      while i < |upserts|
        invariant Progress(f, size, |upserts|, i) && Left(failAt, left, 2 * f)
        invariant db == UpsertEach(old(db), table, upserts[..i])
      {
        var j := i + Min(size, |upserts| - i);
        NextChunk(f, size, |upserts|, i);
        UpsertChunk(old(db), table, upserts, i, j);
        ok := RunCouple(table, upserts[i..j], left);
        if !ok {
          StoppedHere(failAt.value, left.value, f);
          return;
        }
        i, f, left := j, f + 1, Less(left, 2);
      }
      NoChunksLeft(f, size, |upserts|);
      assert upserts[..i] == upserts;
    }

    /** One guarded upsert and one tombstone clear of the same rows. */
    method RunCouple(table: Table, chunk: seq<Row>, failAt: Option<nat>) returns (ok: bool)
      modifies this`db
      ensures ok <==> failAt.None? || 2 <= failAt.value
      ensures db == if ok then UpsertAndClear(old(db), table, chunk)
                    else if failAt.value == 1 then GuardedUpsert(old(db), table, chunk)
                    else old(db)
    {
      hide GuardedUpsert, TombstoneClear;
      if failAt == Some(0) {
        return false;
      }
      db := GuardedUpsert(db, table, chunk);
      if failAt == Some(1) {
        return false;
      }
      db := TombstoneClear(db, table, Stamps(chunk));
      ok := true;
    }

    /** `apply_tombstones`: keep the newer one per key; live rows stay put. */
    method ApplyTombstones(tombs: seq<Tombstone>, failAt: Option<nat>) returns (ok: bool)
      requires DistinctTombs(tombs)
      modifies this`db
      ensures ok <==> failAt.None? || Chunks(|tombs|, 2000) <= failAt.value
      ensures db == InstallTombs(old(db), TombsOf(if ok then tombs else tombs[..Covered(failAt.value, 2000, |tombs|)]))
    {
      hide InstallTombs, TombsOf, Chunks, Covered;
      ok := true;
      var i := 0;
      var left: Option<nat> := failAt;
      ghost var f := 0;
      NoTombsYet(db, tombs);
      while i < |tombs|
        invariant Progress(f, PAIRS, |tombs|, i) && Left(failAt, left, f)
        invariant db == InstallTombs(old(db), TombsOf(tombs[..i]))
      {
        var n := Min(PAIRS, |tombs| - i);
        NextChunk(f, PAIRS, |tombs|, i);
        if left == Some(0) {
          return false;
        }
        MoreTombs(old(db), tombs, i, i + n);
        db := InstallTombs(db, TombsOf(tombs[i..i + n]));
        i, f, left := i + n, f + 1, Less(left, 1);
      }
      NoChunksLeft(f, PAIRS, |tombs|);
      assert tombs[..i] == tombs;
    }

    /** A window of events. If a table has no sink, or a statement of it fails,
        the other tables are applied all the same; the cursor stays, so the
        window comes again. `failAt` says which statement of a table fails. */
    method OnEvents(events: seq<Op>, c: int, failAt: map<Table, nat>) returns (applied: bool, pullNext: bool)
      requires columns > 0
      modifies this
      ensures applied ==
              forall t | t in TablesOf(events) :: t in sinks && Enough(t, OnTable(events, t), columns, failAt)
      ensures db == SinkAll(old(db), TablesOf(events), events, sinks, columns, failAt)
      ensures applied ==> db == ApplyWindow(old(db), events)
      ensures applied ==> cursor == c
      ensures applied && c <= old(cursor) ==> saved == old(saved)
      ensures applied && c > old(cursor) ==> saved == c
      ensures !applied ==> cursor == old(cursor) && saved == old(saved)
      ensures pullNext == (applied && events != [])
    {
      hide Enough, SinkAll, ApplyWindow, Once;
      var unique := TouchedTables(events);
      applied := SinkEach(unique, events, failAt);
      if applied {
        SunkIsWindow(old(db), unique, events, sinks, columns, failAt);
        AllSunk(events, sinks);
      }
      pullNext := applied && events != [];
      if applied {
        var advanced := c > cursor;
        cursor := c;
        if advanced { saved := c; }
      }
    }

    method SinkEach(unique: seq<Table>, events: seq<Op>, failAt: map<Table, nat>) returns (applied: bool)
      requires columns > 0
      modifies this`db
      ensures applied == forall t | t in unique :: t in sinks && Enough(t, OnTable(events, t), columns, failAt)
      ensures db == SinkAll(old(db), unique, events, sinks, columns, failAt)
    {
      hide Enough, AfterStatements, ApplyWindow;
      applied := true;
      for i := 0 to |unique|
        invariant db == SinkAll(old(db), unique[..i], events, sinks, columns, failAt)
        invariant applied == forall t | t in unique[..i] :: t in sinks && Enough(t, OnTable(events, t), columns, failAt)
      {
        assert unique[..i + 1] == unique[..i] + [unique[i]] && unique[..i + 1][..i] == unique[..i];
        OnTableIsOfTable(events, unique[i]);
        var ok := SinkTable(unique[i], OnTable(events, unique[i]), failAt);
        applied := applied && ok;
      }
      assert unique[..|unique|] == unique;
    }

    /** `apply_batch`: one table's ops, if it has a sink. */
    method SinkTable(table: Table, ops: seq<Op>, failAt: map<Table, nat>) returns (ok: bool)
      requires columns > 0 && forall op | op in ops :: op.table == table
      modifies this`db
      ensures ok == (table in sinks && Enough(table, ops, columns, failAt))
      ensures db == SinkOne(old(db), table, ops, sinks, columns, failAt)
    {
      hide AfterStatements, ApplyWindow, Statements;
      if table !in sinks {
        return false;
      }
      ok := ApplyOps(table, ops, Find(failAt, table));
    }

    /** A snapshot: tombstones, then every table's rows as upserts, also when the
        tombstones or an earlier table failed. Any failure keeps the cursor, and
        the client closes the socket to reconnect. */
    method OnSnapshot(seqno: int, tables: seq<TableData>, tombs: seq<Tombstone>, failTombs: Option<nat>,
                      failAt: map<Table, nat>) returns (applied: bool)
      requires columns > 0 && DistinctTombs(tombs)
      modifies this
      ensures applied == ((failTombs.None? || Chunks(|tombs|, 2000) <= failTombs.value)
                          && forall td | td in tables ::
                               td.table in sinks && Enough(td.table, SnapshotOps(td), columns, failAt))
      ensures var n := if failTombs.None? then |tombs| else Covered(failTombs.value, 2000, |tombs|);
              db == SinkTables(InstallTombs(old(db), TombsOf(tombs[..n])), tables, sinks, columns, failAt)
      ensures applied ==> db == Install(old(db), tables, tombs)
      ensures applied ==> cursor == seqno
      ensures applied && seqno <= old(cursor) ==> saved == old(saved)
      ensures applied && seqno > old(cursor) ==> saved == seqno
      ensures !applied ==> cursor == old(cursor) && saved == old(saved)
    {
      hide InstallTombs, Enough, TombsOf;
      var listed := ApplyTombstones(tombs, failTombs);
      AllCovered(tombs, failTombs);
      ghost var held := db;
      applied := SinkSnapshot(tables, failAt);
      applied := applied && listed;
      if applied {
        SunkIsInstalled(held, tables, sinks, columns, failAt);
        var advanced := seqno > cursor;
        cursor := seqno;
        if advanced { saved := seqno; }
      }
    }

    method SinkSnapshot(tables: seq<TableData>, failAt: map<Table, nat>) returns (applied: bool)
      requires columns > 0
      modifies this`db
      ensures applied ==
              forall td | td in tables :: td.table in sinks && Enough(td.table, SnapshotOps(td), columns, failAt)
      ensures db == SinkTables(old(db), tables, sinks, columns, failAt)
    {
      hide Enough, AfterStatements, ApplyWindow;
      applied := true;
      for i := 0 to |tables|
        invariant db == SinkTables(old(db), tables[..i], sinks, columns, failAt)
        invariant applied == forall td | td in tables[..i] ::
                    td.table in sinks && Enough(td.table, SnapshotOps(td), columns, failAt)
      {
        var td := tables[i];
        assert tables[..i + 1] == tables[..i] + [td] && tables[..i + 1][..i] == tables[..i];
        SnapshotOpsTable(td);
        var ok := SinkTable(td.table, SnapshotOps(td), failAt);
        applied := applied && ok;
      }
      assert tables[..|tables|] == tables;
    }
  }

  // ---------------------------------------------------------------------
  // Tables, one after the other
  // ---------------------------------------------------------------------

  /** The tables of a window, as first touched. */
  function TablesOf(events: seq<Op>): (tables: seq<Table>)
    ensures forall t :: t in tables <==> exists op | op in events :: op.table == t
  {
    if |events| == 0 then []
    else
      var init, op := events[..|events| - 1], events[|events| - 1];
      assert events == init + [op];
      if op.table in TablesOf(init) then TablesOf(init) else TablesOf(init) + [op.table]
  }

  lemma {:induction false} TablesOnce(events: seq<Op>)
    ensures Once(TablesOf(events))
  {
    if |events| == 0 {
    } else {
      TablesOnce(events[..|events| - 1]);
    }
  }

  /** No statement of the table fails. */
  predicate Enough(table: Table, ops: seq<Op>, columns: nat, failAt: map<Table, nat>)
    requires columns > 0
  {
    table in failAt ==> Statements(table, ops, columns) <= failAt[table]
  }

  function SinkOne(db: Db, table: Table, ops: seq<Op>, sinks: set<Table>, columns: nat, failAt: map<Table, nat>): Db
    requires columns > 0
  {
    if table !in sinks then db
    else if Enough(table, ops, columns, failAt) then ApplyWindow(db, ops)
    else AfterStatements(db, table, ops, columns, failAt[table])
  }

  function SinkAll(db: Db, tables: seq<Table>, events: seq<Op>, sinks: set<Table>, columns: nat,
                   failAt: map<Table, nat>): Db
    requires columns > 0
  {
    if |tables| == 0 then db
    else
      var t := tables[|tables| - 1];
      var before := SinkAll(db, tables[..|tables| - 1], events, sinks, columns, failAt);
      SinkOne(before, t, OnTable(events, t), sinks, columns, failAt)
  }

  function SinkTables(db: Db, tables: seq<TableData>, sinks: set<Table>, columns: nat, failAt: map<Table, nat>): Db
    requires columns > 0
  {
    if |tables| == 0 then db
    else
      var td := tables[|tables| - 1];
      var before := SinkTables(db, tables[..|tables| - 1], sinks, columns, failAt);
      SinkOne(before, td.table, SnapshotOps(td), sinks, columns, failAt)
  }

  lemma SinkOnePerKey(db: Db, table: Table, ops: seq<Op>, sinks: set<Table>, columns: nat, failAt: map<Table, nat>,
                      k: Key)
    requires columns > 0 && forall op | op in ops :: op.table == table
    ensures var c, d := CellOf(db, k), CellOf(SinkOne(db, table, ops, sinks, columns, failAt), k);
            if k.table != table || table !in sinks then d == c
            else if Enough(table, ops, columns, failAt) then d == WindowCell(c, k, ops)
            else MidCell(c, d, Winner(WritesOn(k, ops)))
  {
    hide AfterStatements, ApplyWindow, MidCell;
    if table in sinks {
      if Enough(table, ops, columns, failAt) {
        ApplyWindowPerKey(db, ops, k);
        if k.table != table { UntouchedTable(ops, k); }
      } else {
        StatementsLeaveMidway(db, table, ops, columns, failAt[table], k);
      }
    }
  }

  /** A key of a table with a sink takes its window step, or stops halfway if a
      statement of the table fails; the other keys stay. */
  predicate SunkCell(c: Cell, d: Cell, k: Key, tables: seq<Table>, events: seq<Op>, sinks: set<Table>, columns: nat,
                     failAt: map<Table, nat>)
    requires columns > 0
  {
    if k.table !in tables || k.table !in sinks then d == c
    else if Enough(k.table, OnTable(events, k.table), columns, failAt) then d == WindowCell(c, k, events)
    else MidCell(c, d, Winner(WritesOn(k, events)))
  }

  ghost predicate Once(tables: seq<Table>) {
    forall a, b | 0 <= a < b < |tables| :: tables[a] != tables[b]
  }

  lemma {:induction false} SinkAllPerKey(db: Db, tables: seq<Table>, events: seq<Op>, sinks: set<Table>, columns: nat,
                                         failAt: map<Table, nat>, k: Key)
    requires columns > 0 && Once(tables)
    ensures SunkCell(CellOf(db, k), CellOf(SinkAll(db, tables, events, sinks, columns, failAt), k), k, tables, events,
                     sinks, columns, failAt)
  {
    hide SinkOne, Enough, MidCell;
    if |tables| == 0 {
    } else {
      var init, t := tables[..|tables| - 1], tables[|tables| - 1];
      var before := SinkAll(db, init, events, sinks, columns, failAt);
      SinkAllPerKey(db, init, events, sinks, columns, failAt, k);
      LastOnce(init, t, tables, k.table);
      OnTableIsOfTable(events, t);
      OnTableWrites(events, t, k);
      SinkOnePerKey(before, t, OnTable(events, t), sinks, columns, failAt, k);
      hide Once, WritesOn, OnTable, Sunk;
    }
  }

  lemma LastOnce(init: seq<Table>, t: Table, tables: seq<Table>, u: Table)
    requires |tables| > 0 && init == tables[..|tables| - 1] && t == tables[|tables| - 1] && Once(tables)
    ensures u in tables <==> u in init || u == t
    ensures t !in init
  {
    assert tables == init + [t];
  }

  /** With no failing statement a window applies in full to the tables with a
      sink, and only to them. */
  lemma SunkIsWindow(db: Db, tables: seq<Table>, events: seq<Op>, sinks: set<Table>, columns: nat, failAt: map<Table,
                     nat>)
    requires columns > 0 && Once(tables) && forall op | op in events :: op.table in tables
    requires forall t | t in tables && t in sinks :: Enough(t, OnTable(events, t), columns, failAt)
    ensures SinkAll(db, tables, events, sinks, columns, failAt) == ApplyWindow(db, Sunk(events, sinks))
  {
    hide Enough, ApplyWindow;
    var end := SinkAll(db, tables, events, sinks, columns, failAt);
    forall k ensures CellOf(end, k) == CellOf(ApplyWindow(db, Sunk(events, sinks)), k) {
      SinkAllPerKey(db, tables, events, sinks, columns, failAt, k);
      ApplyWindowPerKey(db, Sunk(events, sinks), k);
      SunkWrites(events, sinks, k);
      if k.table !in tables { UntouchedTable(events, k); }
    }
    SameCells(end, ApplyWindow(db, Sunk(events, sinks)));
  }

  /** Whatever fails, the replica is halfway through the window, so that
      `Batches.RetryHeals` says what the next try of it does. */
  lemma EventsLeaveMidway(db: Db, events: seq<Op>, sinks: set<Table>, columns: nat, failAt: map<Table, nat>)
    requires columns > 0
    ensures Midway(db, SinkAll(db, TablesOf(events), events, sinks, columns, failAt), events)
  {
    hide Enough;
    var now := SinkAll(db, TablesOf(events), events, sinks, columns, failAt);
    TablesOnce(events);
    forall k ensures MidCell(CellOf(db, k), CellOf(now, k), Winner(WritesOn(k, events))) {
      SinkAllPerKey(db, TablesOf(events), events, sinks, columns, failAt, k);
    }
  }

  // ---------------------------------------------------------------------
  // A snapshot half applied
  // ---------------------------------------------------------------------

  ghost predicate ListsRow(tables: seq<TableData>, k: Key, row: Row) {
    row.id == k.id && exists td | td in tables :: td.table == k.table && row in td.rows
  }

  /** Rows and tombstones are the replica's own or the snapshot's. */
  ghost predicate HalfCell(c: Cell, d: Cell, k: Key, tables: seq<TableData>, tombs: seq<Tombstone>) {
    && (d.row == c.row || (d.row.Some? && ListsRow(tables, k, d.row.value)))
    && (d.tomb == c.tomb || d.tomb == None || Tombstone(k.table, k.id, d.tomb.value) in tombs)
  }

  ghost predicate HalfInstalled(before: Db, now: Db, tables: seq<TableData>, tombs: seq<Tombstone>) {
    forall k :: HalfCell(CellOf(before, k), CellOf(now, k), k, tables, tombs)
  }

  lemma {:induction false} TombListed(tombs: seq<Tombstone>, k: Key)
    requires k in TombsOf(tombs)
    ensures Tombstone(k.table, k.id, TombsOf(tombs)[k]) in tombs
  {
    var t := tombs[|tombs| - 1];
    if Key(t.table, t.id) == k {
    } else {
      TombListed(tombs[..|tombs| - 1], k);
    }
  }

  lemma SnapshotWriteIsRow(td: TableData, k: Key)
    ensures var w := Winner(WritesOn(k, SnapshotOps(td)));
            w.Some? ==> w.value.Put? && ListsRow([td], k, w.value.row)
  {
    var ws := WritesOn(k, SnapshotOps(td));
    if |ws| > 0 {
      WinnerIsFirstNewest(ws);
      WritesOnMembers(k, SnapshotOps(td), Winner(ws).value);
      assert td in [td];
    }
  }

  lemma StepKeepsHalf(before: Cell, c: Cell, d: Cell, k: Key, tables: seq<TableData>, td: TableData,
                      tombs: seq<Tombstone>)
    requires HalfCell(before, c, k, tables, tombs) && MidCell(c, d, Winner(WritesOn(k, SnapshotOps(td))))
    ensures HalfCell(before, d, k, tables + [td], tombs)
  {
    SnapshotWriteIsRow(td, k);
    forall row | ListsRow(tables, k, row) || ListsRow([td], k, row) ensures ListsRow(tables + [td], k, row) {
      var from :| (from in tables || from in [td]) && from.table == k.table && row in from.rows;
      assert from in tables + [td];
    }
  }

  lemma {:induction false} TablesKeepHalf(before: Db, held: Db, tables: seq<TableData>, tombs: seq<Tombstone>,
                                          sinks: set<Table>, columns: nat, failAt: map<Table, nat>, k: Key)
    requires columns > 0 && HalfCell(CellOf(before, k), CellOf(held, k), k, [], tombs)
    ensures HalfCell(CellOf(before, k), CellOf(SinkTables(held, tables, sinks, columns, failAt), k), k, tables, tombs)
  {
    hide SinkOne, HalfCell, MidCell;
    if |tables| == 0 {
    } else {
      var init, td := tables[..|tables| - 1], tables[|tables| - 1];
      assert tables == init + [td];
      TablesKeepHalf(before, held, init, tombs, sinks, columns, failAt, k);
      SinkOneIsMidway(SinkTables(held, init, sinks, columns, failAt), td, sinks, columns, failAt, k);
      StepKeepsHalf(CellOf(before, k), CellOf(SinkTables(held, init, sinks, columns, failAt), k),
                    CellOf(SinkTables(held, tables, sinks, columns, failAt), k), k, init, td, tombs);
    }
  }

  lemma SinkOneIsMidway(db: Db, td: TableData, sinks: set<Table>, columns: nat, failAt: map<Table, nat>, k: Key)
    requires columns > 0
    ensures MidCell(CellOf(db, k), CellOf(SinkOne(db, td.table, SnapshotOps(td), sinks, columns, failAt), k),
                    Winner(WritesOn(k, SnapshotOps(td))))
  {
    hide SinkOne, Enough;
    SnapshotOpsTable(td);
    SinkOnePerKey(db, td.table, SnapshotOps(td), sinks, columns, failAt, k);
  }

  /** Wherever a snapshot's installation stops, every row and tombstone left is
      the replica's own or the snapshot's. */
  lemma SnapshotLeavesHalf(db: Db, tables: seq<TableData>, tombs: seq<Tombstone>, n: nat, sinks: set<Table>,
                           columns: nat, failAt: map<Table, nat>)
    requires columns > 0 && n <= |tombs|
    ensures HalfInstalled(db, SinkTables(InstallTombs(db, TombsOf(tombs[..n])), tables, sinks, columns, failAt),
            tables, tombs)
  {
    var held := InstallTombs(db, TombsOf(tombs[..n]));
    forall k
      ensures HalfCell(CellOf(db, k), CellOf(SinkTables(held, tables, sinks, columns, failAt), k), k, tables, tombs)
    {
      InstallTombsPerKey(db, TombsOf(tombs[..n]), k);
      if k in TombsOf(tombs[..n]) { TombListed(tombs[..n], k); }
      TablesKeepHalf(db, held, tables, tombs, sinks, columns, failAt, k);
    }
  }

  lemma {:induction false} SunkIsInstalled(db: Db, tables: seq<TableData>, sinks: set<Table>, columns: nat,
                                           failAt: map<Table, nat>)
    requires columns > 0
    requires forall td | td in tables :: td.table in sinks && Enough(td.table, SnapshotOps(td), columns, failAt)
    ensures SinkTables(db, tables, sinks, columns, failAt) == InstallTables(db, tables)
  {
    hide Enough, ApplyWindow;
    if |tables| == 0 {
    } else {
      assert tables[|tables| - 1] in tables;
      SunkIsInstalled(db, tables[..|tables| - 1], sinks, columns, failAt);
    }
  }

  /** A budget, after `n` statements. */
  function Less(g: Option<nat>, n: nat): Option<nat> {
    if g.Some? then Some(if g.value < n then 0 else g.value - n) else None
  }

  /** `f` statements have run and covered `i` rows. */
  ghost predicate Progress(f: nat, size: nat, n: nat, i: nat)
    requires size > 0
  {
    i <= n && i == Covered(f, size, n) && Chunks(n, size) == f + Chunks(n - i, size)
  }

  /** What is left of a budget after `f` statements. */
  ghost predicate Left(failAt: Option<nat>, left: Option<nat>, f: nat) {
    left.Some? == failAt.Some? && (left.Some? ==> left.value + f == failAt.value)
  }

  lemma NoChunksLeft(f: nat, size: nat, n: nat)
    requires size > 0 && Progress(f, size, n, n)
    ensures Chunks(n, size) == f
  {
  }

  lemma NoDeletesYet(db: Db, table: Table, ws: seq<Stamp>)
    ensures DeleteEach(db, table, ws[..0]) == db && Progress(0, PAIRS, |ws|, 0)
  {
  }

  lemma NoUpsertsYet(db: Db, table: Table, rs: seq<Row>, size: nat)
    requires size > 0
    ensures UpsertEach(db, table, rs[..0]) == db && Progress(0, size, |rs|, 0)
  {
  }

  lemma NoTombsYet(db: Db, tombs: seq<Tombstone>)
    ensures InstallTombs(db, TombsOf(tombs[..0])) == db && Progress(0, PAIRS, |tombs|, 0)
  {
    assert InstallTombs(db, map[]).tombs == db.tombs;
  }

  lemma {:induction false} TombsOfConcat(a: seq<Tombstone>, b: seq<Tombstone>)
    ensures TombsOf(a + b) == TombsOf(a) + TombsOf(b)
  {
    if |b| == 0 {
      assert a + b == a;
    } else {
      assert (a + b)[..|a + b| - 1] == a + b[..|b| - 1];
      TombsOfConcat(a, b[..|b| - 1]);
    }
  }

  /** One statement's worth more. */
  lemma MoreTombs(db: Db, tombs: seq<Tombstone>, i: nat, j: nat)
    requires DistinctTombs(tombs) && i <= j <= |tombs|
    ensures InstallTombs(InstallTombs(db, TombsOf(tombs[..i])), TombsOf(tombs[i..j])) ==
            InstallTombs(db, TombsOf(tombs[..j]))
  {
    assert tombs[..j] == tombs[..i] + tombs[i..j];
    TombsOfConcat(tombs[..i], tombs[i..j]);
    forall k | k in TombsOf(tombs[..i]) ensures k !in TombsOf(tombs[i..j]) {
      TombListed(tombs[..i], k);
      if k in TombsOf(tombs[i..j]) { TombListed(tombs[i..j], k); }
    }
    InstallBoth(db, TombsOf(tombs[..i]), TombsOf(tombs[i..j]));
  }

  lemma InstallBoth(db: Db, a: map<Key, Ts>, b: map<Key, Ts>)
    requires a.Keys !! b.Keys
    ensures InstallTombs(InstallTombs(db, a), b) == InstallTombs(db, a + b)
  {
    assert InstallTombs(InstallTombs(db, a), b).tombs == InstallTombs(db, a + b).tombs;
  }

  lemma AllCovered(tombs: seq<Tombstone>, failAt: Option<nat>)
    ensures failAt.Some? && Chunks(|tombs|, PAIRS) <= failAt.value ==> Covered(failAt.value, PAIRS, |tombs|) == |tombs|
    ensures tombs[..|tombs|] == tombs
  {
    if failAt.Some? && Chunks(|tombs|, PAIRS) <= failAt.value { ChunksCover(|tombs|, PAIRS, failAt.value); }
  }

  lemma StoppedHere(g: nat, left: nat, f: nat)
    requires left < 2 && left + 2 * f == g
    ensures g / 2 == f && g % 2 == left
  {
  }

  lemma SnapshotOpsTable(td: TableData)
    ensures forall op | op in SnapshotOps(td) :: op.table == td.table
  {
  }

  /** The distinct tables of a window, in first-touched order. */
  method TouchedTables(events: seq<Op>) returns (unique: seq<Table>)
    ensures unique == TablesOf(events) && Once(unique)
  {
    unique := [];
    for i := 0 to |events|
      invariant unique == TablesOf(events[..i])
    {
      assert events[..i + 1][..i] == events[..i];
      if events[i].table !in unique {
        unique := unique + [events[i].table];
      }
    }
    assert events[..|events|] == events;
    TablesOnce(events);
  }

  lemma CollapseStep(table: Table, ops: seq<Op>, i: nat, id: Id)
    requires i < |ops|
    ensures var k := Key(table, id); var d := Decoded(ops[i]);
            Winner(WritesOn(k, ops[..i + 1])) ==
            if d.Some? && d.value.0 == k then Newer(Winner(WritesOn(k, ops[..i])), d.value.1)
            else Winner(WritesOn(k, ops[..i]))
  {
    var k := Key(table, id);
    assert ops[..i + 1][..i] == ops[..i];
    var ws := WritesOn(k, ops[..i]);
    if WriteOn(k, ops[i]) == [] {
      assert WritesOn(k, ops[..i + 1]) == ws;
    } else {
      assert WritesOn(k, ops[..i + 1]) == ws + [WriteOn(k, ops[i])[0]];
      assert (ws + [WriteOn(k, ops[i])[0]])[..|ws|] == ws;
    }
  }

  /** The collapse loop of `apply_ops`: `last` holds each key's surviving
      write, `order` the keys as first touched. */
  method Collapse(table: Table, ops: seq<Op>) returns (order: seq<Id>, last: map<Id, Write>)
    requires forall op | op in ops :: op.table == table
    ensures order == Touched(ops) && Lists(order, last)
    ensures Collapsed(table, ops, last)
  {
    order, last := [], map[];
    for i := 0 to |ops|
      invariant order == Touched(ops[..i]) && Lists(order, last)
      invariant Collapsed(table, ops[..i], last)
    {
      ghost var was := last;
      assert ops[i] in ops && ops[..i + 1][..i] == ops[..i];
      order, last := CollapseOne(ops[i], order, last);
      CollapsedStep(table, ops, i, was, last);
    }
    assert ops[..|ops|] == ops;
  }

  /** `order` names each key of `last` once, and a surviving row its own key. */
  ghost predicate Lists(order: seq<Id>, last: map<Id, Write>) {
    && (forall id :: id in order <==> id in last)
    && (forall i, j | 0 <= i < j < |order| :: order[i] != order[j])
    && (forall id | id in last :: last[id].Put? ==> last[id].row.id == id)
  }

  /** One op's turn: a later write replaces the surviving one only if newer. */
  method CollapseOne(op: Op, order: seq<Id>, last: map<Id, Write>) returns (order': seq<Id>, last': map<Id, Write>)
    requires Lists(order, last)
    ensures Lists(order', last')
    ensures var d := Decoded(op);
            && last' == (if d.Some? then last[d.value.0.id := Newer(Held(last, d.value.0.id), d.value.1).value]
                         else last)
            && order' == if d.None? || d.value.0.id in order then order else order + [d.value.0.id]
  {
    order', last' := order, last;
    match Kind(op) {
      case Delete =>
        if op.id !in last { order' := order + [op.id]; }
        var next := Del(op.updatedAt);
        if op.id in last {
          match last[op.id] {
            case Put(row) => if op.updatedAt <= row.lww { next := Put(row); }
            case Del(at) => if op.updatedAt <= at { next := Del(at); }
          }
        }
        last' := last[op.id := next];
      case Upsert =>
        match op.data {
          case Doc(row) =>
            if row.id !in last { order' := order + [row.id]; }
            var next := Put(row);
            if row.id in last {
              match last[row.id] {
                case Put(cur) => if row.lww <= cur.lww { next := Put(cur); }
                case Del(at) => if row.lww <= at { next := Del(at); }
              }
            }
            last' := last[row.id := next];
          case Malformed(_) =>
        }
    }
  }

  /** `last` holds exactly the newest write of each key. */
  ghost predicate Collapsed(table: Table, ops: seq<Op>, last: map<Id, Write>) {
    forall id :: Held(last, id) == Winner(WritesOn(Key(table, id), ops))
  }

  function Held(last: map<Id, Write>, id: Id): Option<Write> {
    if id in last then Some(last[id]) else None
  }

  lemma HeldStep(table: Table, ops: seq<Op>, i: nat, id: Id, was: map<Id, Write>, last: map<Id, Write>)
    requires i < |ops| && ops[i].table == table
    requires Held(was, id) == Winner(WritesOn(Key(table, id), ops[..i]))
    requires var d := Decoded(ops[i]);
             if d.Some? then last == was[d.value.0.id := Newer(Held(was, d.value.0.id), d.value.1).value]
             else last == was
    ensures Held(last, id) == Winner(WritesOn(Key(table, id), ops[..i + 1]))
  {
    CollapseStep(table, ops, i, id);
  }

  lemma CollapsedStep(table: Table, ops: seq<Op>, i: nat, was: map<Id, Write>, last: map<Id, Write>)
    requires i < |ops| && ops[i].table == table
    requires Collapsed(table, ops[..i], was)
    requires var d := Decoded(ops[i]);
             if d.Some? then last == was[d.value.0.id := Newer(Held(was, d.value.0.id), d.value.1).value]
             else last == was
    ensures Collapsed(table, ops[..i + 1], last)
  {
    forall id ensures Held(last, id) == Winner(WritesOn(Key(table, id), ops[..i + 1])) {
      assert Held(was, id) == Winner(WritesOn(Key(table, id), ops[..i]));
      HeldStep(table, ops, i, id, was, last);
    }
  }

  /** The surviving writes, split into the delete and the upsert statement
      lists, in first-touched order. */
  method Split(order: seq<Id>, last: map<Id, Write>) returns (deletes: seq<Stamp>, upserts: seq<Row>)
    requires forall id | id in order :: id in last
    ensures deletes == DeletesIn(order, last) && upserts == UpsertsIn(order, last)
  {
    deletes, upserts := [], [];
    for i := 0 to |order|
      invariant deletes == DeletesIn(order[..i], last) && upserts == UpsertsIn(order[..i], last)
    {
      var id := order[i];
      assert order[..i + 1][..i] == order[..i];
      match last[id] {
        case Put(row) => upserts := upserts + [row];
        case Del(at) => deletes := deletes + [Stamp(id, at)];
      }
    }
    assert order[..|order|] == order;
  }

  lemma CollapsedIsSurvivors(table: Table, ops: seq<Op>, last: map<Id, Write>)
    requires (forall op | op in ops :: op.table == table) && Collapsed(table, ops, last)
    ensures last == Survivors(table, ops)
  {
    forall id ensures Held(last, id) == Held(Survivors(table, ops), id) {
      assert Held(last, id) == Winner(WritesOn(Key(table, id), ops));
      SurvivorOf(table, ops, id);
    }
    SameHeld(last, Survivors(table, ops));
  }

  lemma SameHeld(a: map<Id, Write>, b: map<Id, Write>)
    requires forall id :: Held(a, id) == Held(b, id)
    ensures a == b
  {
    forall id ensures (id in a <==> id in b) && (id in a ==> a[id] == b[id]) {
      assert Held(a, id) == Held(b, id);
    }
  }

  lemma CollapsedLists(table: Table, ops: seq<Op>, last: map<Id, Write>)
    requires (forall op | op in ops :: op.table == table) && Collapsed(table, ops, last)
    ensures DeletesIn(Touched(ops), last) == DeletesOf(table, ops)
            && UpsertsIn(Touched(ops), last) == UpsertsOf(table, ops)
    ensures DistinctStamps(DeletesOf(table, ops)) && DistinctRows(UpsertsOf(table, ops))
  {
    hide Collapsed, Survivors, DeletesIn, UpsertsIn, Touched;
    CollapsedIsSurvivors(table, ops, last);
    ListsFor(table, ops, 0);
  }

  lemma {:induction false} DeleteEachConcat(db: Db, table: Table, a: seq<Stamp>, b: seq<Stamp>)
    ensures DeleteEach(db, table, a + b) == DeleteEach(DeleteEach(db, table, a), table, b)
  {
    if |b| == 0 {
      assert a + b == a;
    } else {
      assert (a + b)[..|a + b| - 1] == a + b[..|b| - 1];
      DeleteEachConcat(db, table, a, b[..|b| - 1]);
    }
  }

  lemma {:induction false} UpsertEachConcat(db: Db, table: Table, a: seq<Row>, b: seq<Row>)
    ensures UpsertEach(db, table, a + b) == UpsertEach(UpsertEach(db, table, a), table, b)
  {
    if |b| == 0 {
      assert a + b == a;
    } else {
      assert (a + b)[..|a + b| - 1] == a + b[..|b| - 1];
      UpsertEachConcat(db, table, a, b[..|b| - 1]);
    }
  }

  lemma DeleteChunk(db: Db, table: Table, ws: seq<Stamp>, i: nat, n: nat)
    requires DistinctStamps(ws) && i + n <= |ws|
    ensures DeleteRows(DeleteEach(db, table, ws[..i]), table, ws[i..i + n]) == DeleteEach(db, table, ws[..i + n])
  {
    assert ws[..i + n] == ws[..i] + ws[i..i + n];
    DeleteEachConcat(db, table, ws[..i], ws[i..i + n]);
    BatchedDeleteIsOneAtATime(DeleteEach(db, table, ws[..i]), table, ws[i..i + n], ws[i..i + n]);
  }

  lemma UpsertChunk(db: Db, table: Table, rs: seq<Row>, i: nat, done: nat)
    requires DistinctRows(rs) && i <= done <= |rs|
    ensures UpsertAndClear(UpsertEach(db, table, rs[..i]), table, rs[i..done]) == UpsertEach(db, table, rs[..done])
  {
    var chunk, before := rs[i..done], UpsertEach(db, table, rs[..i]);
    assert UpsertEach(before, table, chunk) == UpsertAndClear(before, table, chunk) by {
      BatchedUpsertIsOneAtATime(before, table, chunk, chunk);
    }
    assert rs[..done] == rs[..i] + chunk;
    UpsertEachConcat(db, table, rs[..i], chunk);
  }

  /** All deletes and then all upserts of the collapse is the window. */
  lemma CollapsedIsWindow(db: Db, table: Table, ops: seq<Op>)
    requires forall op | op in ops :: op.table == table
    ensures UpsertEach(DeleteEach(db, table, DeletesOf(table, ops)), table, UpsertsOf(table, ops)) ==
            ApplyWindow(db, ops)
  {
    var end := UpsertEach(DeleteEach(db, table, DeletesOf(table, ops)), table, UpsertsOf(table, ops));
    forall k ensures CellOf(end, k) == CellOf(ApplyWindow(db, ops), k) {
      CollapsedKey(db, table, ops, k);
    }
    SameCells(end, ApplyWindow(db, ops));
  }

  lemma CollapsedKey(db: Db, table: Table, ops: seq<Op>, k: Key)
    requires forall op | op in ops :: op.table == table
    ensures CellOf(UpsertEach(DeleteEach(db, table, DeletesOf(table, ops)), table, UpsertsOf(table, ops)), k) ==
            CellOf(ApplyWindow(db, ops), k)
  {
    hide DeletesOf, UpsertsOf, DeleteEach, UpsertEach, ApplyWindow;
    var deletes, upserts := DeletesOf(table, ops), UpsertsOf(table, ops);
    ListsFor(table, ops, k.id);
    DeleteEachPerKey(db, table, deletes, k);
    DeleteRowsPerKey(db, table, deletes, k);
    UpsertEachPerKey(DeleteEach(db, table, deletes), table, upserts, k);
    ApplyWindowPerKey(db, ops, k);
    if k.table == table {
      assert k == Key(table, k.id);
    } else {
      UntouchedTable(ops, k);
    }
  }
}
