/**
 A snapshot on the wire and its installation on a client database, as
 functions; per key it is `Bootstrap.Installed`.
 */
module Snapshots {
  import opened Protocol
  import opened Register
  import opened Store
  import opened Bootstrap
  import opened Windows

  function TombsOf(ts: seq<Tombstone>): map<Key, Ts> {
    if |ts| == 0 then map[]
    else
      var t := ts[|ts| - 1];
      TombsOf(ts[..|ts| - 1])[Key(t.table, t.id) := t.deletedAt]
  }

  predicate DistinctTombs(ts: seq<Tombstone>) {
    forall i, j | 0 <= i < j < |ts| :: Key(ts[i].table, ts[i].id) != Key(ts[j].table, ts[j].id)
  }

  predicate DistinctTables(tables: seq<TableData>) {
    && (forall i, j | 0 <= i < j < |tables| :: tables[i].table != tables[j].table)
    && (forall i | 0 <= i < |tables| :: DistinctRows(tables[i].rows))
  }

  /** `apply_tombstones`. */
  function InstallTombs(db: Db, m: map<Key, Ts>): Db {
    db.(tombs := map k | k in db.tombs.Keys + m.Keys
                   :: if k in m && (k !in db.tombs || m[k] > db.tombs[k]) then m[k] else db.tombs[k])
  }

  lemma InstallTombsPerKey(db: Db, m: map<Key, Ts>, k: Key)
    ensures CellOf(InstallTombs(db, m), k) == TombInstalled(CellOf(db, k), Find(m, k))
  {
  }

  /** A tombstone never regresses: the newer of the two is kept, and rows stay. */
  lemma TombsNeverRegress(db: Db, m: map<Key, Ts>)
    ensures var now := InstallTombs(db, m);
            && now.rows == db.rows && now.tombs.Keys == db.tombs.Keys + m.Keys
            && forall k | k in now.tombs ::
                 && (k in db.tombs ==> db.tombs[k] <= now.tombs[k]) && (k in m ==> m[k] <= now.tombs[k])
                 && ((k in db.tombs && now.tombs[k] == db.tombs[k]) || (k in m && now.tombs[k] == m[k]))
  {
  }

  /** Snapshot rows re-enter as upserts under a nil id and the epoch: an
      upsert's envelope is inert. */
  function SnapshotOps(td: TableData): seq<Op> {
    seq(|td.rows|, i requires 0 <= i < |td.rows| => SnapshotOp(td.table, td.rows[i]))
  }

  function InstallTables(db: Db, tables: seq<TableData>): Db {
    if |tables| == 0 then db
    else ApplyWindow(InstallTables(db, tables[..|tables| - 1]), SnapshotOps(tables[|tables| - 1]))
  }

  function Install(db: Db, tables: seq<TableData>, tombs: seq<Tombstone>): Db {
    InstallTables(InstallTombs(db, TombsOf(tombs)), tables)
  }

  /** The row a snapshot carries for a key. */
  function SnapRow(tables: seq<TableData>, k: Key): Option<Row> {
    if |tables| == 0 then None
    else
      var td := tables[|tables| - 1];
      if td.table == k.table then RowFor(td.rows, k.id) else SnapRow(tables[..|tables| - 1], k)
  }

  function SnapshotOp(table: Table, r: Row): Op {
    Op(table, 0, Doc(r), 0)
  }

  lemma SnapshotWritesSnoc(table: Table, rs: seq<Row>, r: Row, k: Key)
    ensures WritesOn(k, SnapshotOps(TableData(table, rs + [r]))) ==
            WritesOn(k, SnapshotOps(TableData(table, rs))) + if k == Key(table, r.id) then [Put(r)] else []
  {
    assert SnapshotOps(TableData(table, rs + [r])) == SnapshotOps(TableData(table, rs)) + [SnapshotOp(table, r)];
    WritesOnConcat(k, SnapshotOps(TableData(table, rs)), [SnapshotOp(table, r)]);
    WritesOnOne(k, SnapshotOp(table, r));
  }

  lemma {:induction false} SnapshotWrites(table: Table, rs: seq<Row>, k: Key)
    requires DistinctRows(rs)
    ensures WritesOn(k, SnapshotOps(TableData(table, rs))) ==
            if k.table == table then WriteOf(RowFor(rs, k.id)) else []
  {
    if |rs| == 0 {
    } else {
      var init, r := rs[..|rs| - 1], rs[|rs| - 1];
      assert rs == init + [r];
      SnapshotWrites(table, init, k);
      SnapshotWritesSnoc(table, init, r, k);
      RowForSnoc(init, r, k.id);
      RowForIsPresent(init, k.id);
    }
  }

  lemma {:induction false} NoSnapRow(tables: seq<TableData>, k: Key)
    requires forall i | 0 <= i < |tables| :: tables[i].table != k.table
    ensures SnapRow(tables, k) == None
  {
    if |tables| == 0 {
    } else {
      NoSnapRow(tables[..|tables| - 1], k);
    }
  }

  lemma {:induction false} InstallTablesPerKey(db: Db, tables: seq<TableData>, k: Key)
    requires DistinctTables(tables)
    ensures CellOf(InstallTables(db, tables), k) == Run(CellOf(db, k), WriteOf(SnapRow(tables, k)))
  {
    if |tables| == 0 {
    } else {
      var init, td := tables[..|tables| - 1], tables[|tables| - 1];
      InstallTablesPerKey(db, init, k);
      ApplyWindowPerKey(InstallTables(db, init), SnapshotOps(td), k);
      assert td == TableData(td.table, td.rows);
      SnapshotWrites(td.table, td.rows, k);
      WinnerOfOne(RowFor(td.rows, k.id));
      if td.table == k.table {
        NoSnapRow(init, k);
        RunOfOne(CellOf(db, k), RowFor(td.rows, k.id));
      }
    }
  }

  lemma WinnerOfOne(r: Option<Row>)
    ensures Winner(WriteOf(r)) == if r.Some? then Some(Put(r.value)) else None
  {
    if r.Some? { assert [Put(r.value)][..0] == []; }
  }

  lemma RunOfOne(c: Cell, r: Option<Row>)
    ensures Run(c, WriteOf(r)) == if r.Some? then Step(c, Put(r.value)) else c
  {
    if r.Some? { assert [Put(r.value)][..0] == []; }
  }

  /** Installing a snapshot is, on every key, tombstone first and row next. */
  lemma {:induction false} InstallPerKey(db: Db, tables: seq<TableData>, tombs: seq<Tombstone>, k: Key)
    requires DistinctTables(tables)
    ensures CellOf(Install(db, tables, tombs), k) ==
            Installed(CellOf(db, k), SnapRow(tables, k), Find(TombsOf(tombs), k))
  {
    var held := InstallTombs(db, TombsOf(tombs));
    InstallTombsPerKey(db, TombsOf(tombs), k);
    InstallTablesPerKey(held, tables, k);
    RunOfOne(CellOf(held, k), SnapRow(tables, k));
  }

  /** Every row sits under its own id. */
  ghost predicate WellKeyed(rows: map<Key, Row>) {
    forall k | k in rows :: rows[k].id == k.id
  }

  /** `rs` lists the live rows of one table, each once. */
  ghost predicate ListsTable(rs: seq<Row>, table: Table, rows: map<Key, Row>) {
    && DistinctRows(rs)
    && forall r :: r in rs <==> Key(table, r.id) in rows && rows[Key(table, r.id)] == r
  }

  lemma ListedRow(rs: seq<Row>, table: Table, rows: map<Key, Row>, id: Id)
    requires ListsTable(rs, table, rows) && WellKeyed(rows)
    ensures RowFor(rs, id) == Find(rows, Key(table, id))
  {
    RowForIsPresent(rs, id);
    if Key(table, id) in rows {
      var r := rows[Key(table, id)];
      assert r in rs;
      DistinctRowFor(rs, r);
    }
  }

  lemma {:induction false} ReplayWellKeyed(db: Db, ops: seq<Op>)
    requires WellKeyed(db.rows)
    ensures WellKeyed(Replay(db, ops).rows)
  {
    if |ops| == 0 {
    } else {
      var init, op := ops[..|ops| - 1], ops[|ops| - 1];
      ReplayWellKeyed(db, init);
      forall k | k in Applied(Replay(db, init), op).rows
        ensures Applied(Replay(db, init), op).rows[k].id == k.id
      {
        AppliedPerKey(Replay(db, init), op, k);
        if WriteOn(k, op) != [] {
          assert WriteOn(k, op)[..0] == [];
        }
      }
    }
  }
}
