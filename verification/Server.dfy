/**
 The server: live tables, tombstones, sync log, quarantine and stored
 snapshots, changed step by step by pushes, prunes and rebuilds.

 A push is one atomic step and pushes commit in seq order, with arrival times
 that never go back. Time is whole seconds.
 */
module Server {
  import opened Protocol
  import opened Store
  import opened Windows
  import opened Snapshots
  import opened SyncLog

  /** Replay is for backlogs up to this many events. */
  const SNAPSHOT_AFTER_OPS := 50
  /** A stored snapshot is served while younger than this ... */
  const SNAPSHOT_MAX_AGE_SEC := 3600
  /** ... and while the log moved at most this far past it. */
  const SNAPSHOT_MAX_LAG := 5000

  /** One row of `oxylite.snapshots`. */
  datatype Stored = Stored(seqno: int, createdAt: int, rows: seq<Row>)

  // ---------------------------------------------------------------------
  // What a push does to its batch
  // ---------------------------------------------------------------------

  function Accepted(ops: seq<Op>): seq<Op> {
    if |ops| == 0 then []
    else Accepted(ops[..|ops| - 1]) + if Applyable(ops[|ops| - 1]) then [ops[|ops| - 1]] else []
  }

  function Rejected(ops: seq<Op>): seq<Op> {
    if |ops| == 0 then []
    else Rejected(ops[..|ops| - 1]) + if Applyable(ops[|ops| - 1]) then [] else [ops[|ops| - 1]]
  }

  /** The log rows a push appends: consecutive seqs, one arrival time. */
  function NewRows(ops: seq<Op>, from: int, at: int): seq<LogRow> {
    seq(|ops|, i requires 0 <= i < |ops| => LogRow(from + i, ops[i], at))
  }

  /** `xs` and `ys` shuffled together, each in order. */
  predicate Interleaves(ops: seq<Op>, xs: seq<Op>, ys: seq<Op>) {
    if |ops| == 0 then xs == [] && ys == []
    else
      var op := ops[|ops| - 1];
      || (|xs| > 0 && xs[|xs| - 1] == op && Interleaves(ops[..|ops| - 1], xs[..|xs| - 1], ys))
      || (|ys| > 0 && ys[|ys| - 1] == op && Interleaves(ops[..|ops| - 1], xs, ys[..|ys| - 1]))
  }

  /** A batch is exactly its logged part and its quarantined part, in order. */
  lemma {:induction false} PushConservesOps(ops: seq<Op>)
    ensures Interleaves(ops, Accepted(ops), Rejected(ops))
  {
    if |ops| == 0 {
    } else {
      var init, op := ops[..|ops| - 1], ops[|ops| - 1];
      PushConservesOps(init);
      if Applyable(op) {
        assert Accepted(ops)[..|Accepted(ops)| - 1] == Accepted(init);
        assert Rejected(ops) == Rejected(init);
      } else {
        assert Rejected(ops)[..|Rejected(ops)| - 1] == Rejected(init);
        assert Accepted(ops) == Accepted(init);
      }
    }
  }

  /** The logged part is what decodes, the quarantined part what does not. */
  lemma {:induction false} PushSortsByDecoding(ops: seq<Op>)
    ensures forall op :: op in Accepted(ops) <==> op in ops && Applyable(op)
    ensures forall op :: op in Rejected(ops) <==> op in ops && !Applyable(op)
  {
    if |ops| == 0 {
    } else {
      var init, op := ops[..|ops| - 1], ops[|ops| - 1];
      PushSortsByDecoding(init);
      assert ops == init + [op];
    }
  }

  /** Quarantined ops have no effect on the live state. */
  lemma {:induction false} RejectedHaveNoEffect(db: Db, ops: seq<Op>)
    ensures Replay(db, Accepted(ops)) == Replay(db, ops)
  {
    if |ops| == 0 {
    } else {
      var init, op := ops[..|ops| - 1], ops[|ops| - 1];
      RejectedHaveNoEffect(db, init);
      if Applyable(op) {
        assert Accepted(ops)[..|Accepted(ops)| - 1] == Accepted(init);
      } else {
        assert Accepted(ops) == Accepted(init);
      }
    }
  }

  // ---------------------------------------------------------------------
  // Pruning
  // ---------------------------------------------------------------------

  /** The rows a prune keeps: `DELETE ... WHERE logged_at < cutoff`. */
  function Surviving(log: seq<LogRow>, cutoff: int): seq<LogRow> {
    if |log| == 0 then []
    else Surviving(log[..|log| - 1], cutoff) + if log[|log| - 1].loggedAt < cutoff then [] else [log[|log| - 1]]
  }

  function Expired(log: seq<LogRow>, cutoff: int): (n: nat)
    ensures n <= |log|
  {
    if |log| == 0 then 0
    else if log[|log| - 1].loggedAt < cutoff then |log|
    else Expired(log[..|log| - 1], cutoff)
  }

  lemma {:induction false} ExpiredIsPrefix(log: seq<LogRow>, cutoff: int)
    requires Ordered(log)
    ensures forall j | 0 <= j < |log| :: j < Expired(log, cutoff) <==> log[j].loggedAt < cutoff
  {
    if |log| == 0 {
    } else {
      var init := log[..|log| - 1];
      ExpiredIsPrefix(init, cutoff);
      assert forall j | 0 <= j < |init| :: init[j] == log[j];
    }
  }

  /** In a log ordered by arrival a prune cuts a prefix. */
  lemma {:induction false} PruneCutsPrefix(log: seq<LogRow>, cutoff: int)
    requires Ordered(log)
    ensures Surviving(log, cutoff) == log[Expired(log, cutoff)..]
    ensures forall j | 0 <= j < |log| :: j < Expired(log, cutoff) <==> log[j].loggedAt < cutoff
  {
    ExpiredIsPrefix(log, cutoff);
    if |log| == 0 {
    } else if log[|log| - 1].loggedAt < cutoff {
      AllExpired(log, cutoff);
    } else {
      var init, last := log[..|log| - 1], log[|log| - 1];
      PruneCutsPrefix(init, cutoff);
      KeepLast(init, last, Expired(init, cutoff));
      assert log == init + [last];
    }
  }

  lemma KeepLast(a: seq<LogRow>, x: LogRow, n: nat)
    requires n <= |a|
    ensures (a + [x])[n..] == a[n..] + [x]
  {
  }

  lemma {:induction false} AllExpired(log: seq<LogRow>, cutoff: int)
    requires forall j | 0 <= j < |log| :: log[j].loggedAt < cutoff
    ensures Surviving(log, cutoff) == []
  {
    if |log| == 0 {
    } else {
      AllExpired(log[..|log| - 1], cutoff);
    }
  }

  // ---------------------------------------------------------------------
  // The state
  // ---------------------------------------------------------------------

  /** The live state is the replay of everything ever logged; the log is what
      pruning left of that history; and careful pruning never cut a row
      younger than a snapshot may be old. */
  ghost predicate LogOk(db: Db, log: seq<LogRow>, nextSeq: int, now: int, tables: seq<Table>,
                        hist: seq<LogRow>, pruned: nat, careful: bool)
  {
    && Ordered(hist) && nextSeq >= 1
    && RowsWithin(hist, nextSeq, now, tables)
    && pruned <= |hist| && log == hist[pruned..]
    && db == Replay(EMPTY_DB, Ops(hist))
    && (careful ==> forall j | 0 <= j < pruned :: hist[j].loggedAt < now - SNAPSHOT_MAX_AGE_SEC)
  }

  /** Where a generation was taken: after `at` history rows, when the log head
      was `seqno` and the live rows were `rows`. */
  datatype Generation = Generation(at: nat, seqno: int, time: int, rows: map<Key, Row>)

  /** Every table is stored as of one generation, a state of the history that
      everything logged since postdates. */
  ghost predicate AuditSnapshots(stored: map<Table, Stored>, tables: seq<Table>, hist: seq<LogRow>, now: int,
                                gen: Generation)
  {
    stored == map[] || (OneGeneration(stored, tables, gen) && GenerationOk(hist, now, gen))
  }

  ghost predicate OneGeneration(stored: map<Table, Stored>, tables: seq<Table>, gen: Generation) {
    && stored.Keys == (set t | t in tables)
    && forall t | t in stored :: stored[t].seqno == gen.seqno && stored[t].createdAt == gen.time
                                 && ListsTable(stored[t].rows, t, gen.rows)
  }

  ghost predicate GenerationOk(hist: seq<LogRow>, now: int, gen: Generation) {
    && gen.at <= |hist| && gen.time <= now
    && gen.rows == Replay(EMPTY_DB, Ops(hist[..gen.at])).rows
    && (forall j | gen.at <= j < |hist| :: hist[j].loggedAt >= gen.time && hist[j].seqno > gen.seqno)
    && (gen.seqno == 0 || (gen.at > 0 && hist[gen.at - 1].seqno == gen.seqno))
  }

  ghost predicate DistinctNames(tables: seq<Table>) {
    tables != [] && forall i, j | 0 <= i < j < |tables| :: tables[i] != tables[j]
  }

  /** Live state is the replay of history, across every push. */
  lemma {:induction false} PushKeepsHistory(db: Db, log: seq<LogRow>, nextSeq: int, now: int, tables: seq<Table>,
                                            hist: seq<LogRow>, pruned: nat, careful: bool, ops: seq<Op>)
    requires LogOk(db, log, nextSeq, now, tables, hist, pruned, careful)
    requires forall op | op in ops :: op.table in tables
    ensures var rows := NewRows(Accepted(ops), nextSeq, now);
            LogOk(Replay(db, ops), log + rows, nextSeq + |Accepted(ops)|, now, tables, hist + rows, pruned, careful)
  {
    PushSortsByDecoding(ops);
    RejectedHaveNoEffect(db, ops);
    AppendKeepsLog(db, log, nextSeq, now, tables, hist, pruned, careful, Accepted(ops));
  }

  /** A rolled-back push leaves a gap in the seqs. */
  lemma GapKeepsLog(db: Db, log: seq<LogRow>, nextSeq: int, now: int, tables: seq<Table>,
                    hist: seq<LogRow>, pruned: nat, careful: bool, next: int)
    requires LogOk(db, log, nextSeq, now, tables, hist, pruned, careful) && nextSeq <= next
    ensures LogOk(db, log, next, now, tables, hist, pruned, careful)
  {
  }

  lemma SeqsAreFresh(db: Db, log: seq<LogRow>, nextSeq: int, now: int, tables: seq<Table>,
                     hist: seq<LogRow>, pruned: nat, careful: bool)
    requires LogOk(db, log, nextSeq, now, tables, hist, pruned, careful)
    ensures RowsWithin(hist, nextSeq, now, tables) && nextSeq >= 1
  {
  }

  lemma ElapseKeepsLog(db: Db, log: seq<LogRow>, nextSeq: int, now: int, tables: seq<Table>,
                       hist: seq<LogRow>, pruned: nat, careful: bool, later: int)
    requires LogOk(db, log, nextSeq, now, tables, hist, pruned, careful) && now <= later
    ensures LogOk(db, log, nextSeq, later, tables, hist, pruned, careful)
  {
  }

  lemma ElapseKeepsSnapshots(stored: map<Table, Stored>, tables: seq<Table>, hist: seq<LogRow>, now: int,
                             gen: Generation, later: int)
    requires AuditSnapshots(stored, tables, hist, now, gen) && now <= later
    ensures AuditSnapshots(stored, tables, hist, later, gen)
  {
  }

  lemma AppendKeepsLog(db: Db, log: seq<LogRow>, nextSeq: int, now: int, tables: seq<Table>,
                       hist: seq<LogRow>, pruned: nat, careful: bool, ops: seq<Op>)
    requires LogOk(db, log, nextSeq, now, tables, hist, pruned, careful)
    requires forall op | op in ops :: Applyable(op) && op.table in tables
    ensures var rows := NewRows(ops, nextSeq, now);
            LogOk(Replay(db, ops), log + rows, nextSeq + |ops|, now, tables, hist + rows, pruned, careful)
  {
    var rows := NewRows(ops, nextSeq, now);
    AppendKeepsOrder(hist, ops, nextSeq, now, tables);
    AppendKeepsRows(hist, ops, nextSeq, now, tables);
    AppendedOps(hist, ops, nextSeq, now);
    ReplayConcat(EMPTY_DB, Ops(hist), ops);
    SliceOfAppend(hist, rows, pruned);
  }

  ghost predicate RowsWithin(hist: seq<LogRow>, next: int, now: int, tables: seq<Table>) {
    forall j | 0 <= j < |hist| ::
      hist[j].seqno < next && hist[j].loggedAt <= now && Applyable(hist[j].op) && hist[j].op.table in tables
  }

  lemma AppendKeepsOrder(hist: seq<LogRow>, ops: seq<Op>, from: int, at: int, tables: seq<Table>)
    requires Ordered(hist) && from >= 1 && RowsWithin(hist, from, at, tables)
    ensures Ordered(hist + NewRows(ops, from, at))
  {
  }

  lemma AppendKeepsRows(hist: seq<LogRow>, ops: seq<Op>, from: int, at: int, tables: seq<Table>)
    requires RowsWithin(hist, from, at, tables)
    requires forall op | op in ops :: Applyable(op) && op.table in tables
    ensures RowsWithin(hist + NewRows(ops, from, at), from + |ops|, at, tables)
  {
  }

  lemma AppendedOps(hist: seq<LogRow>, ops: seq<Op>, from: int, at: int)
    ensures Ops(hist + NewRows(ops, from, at)) == Ops(hist) + ops
  {
  }

  lemma SliceOfAppend(a: seq<LogRow>, b: seq<LogRow>, n: nat)
    requires n <= |a|
    ensures (a + b)[n..] == a[n..] + b
    ensures forall j | 0 <= j < n :: (a + b)[j] == a[j]
  {
  }

  /** A push never disturbs the stored generation: what it logs is newer. */
  lemma {:induction false} PushKeepsSnapshots(stored: map<Table, Stored>, nextSeq: int, tables: seq<Table>, now: int,
                           hist: seq<LogRow>, gen: Generation, ops: seq<Op>)
    requires AuditSnapshots(stored, tables, hist, now, gen)
    requires RowsWithin(hist, nextSeq, now, tables) && nextSeq >= 1
    ensures AuditSnapshots(stored, tables, hist + NewRows(ops, nextSeq, now), now, gen)
  {
    if stored != map[] {
      assert (hist + NewRows(ops, nextSeq, now))[..gen.at] == hist[..gen.at];
      assert gen.seqno < nextSeq;
    }
  }

  lemma PruneKeepsLog(db: Db, log: seq<LogRow>, nextSeq: int, now: int, tables: seq<Table>,
                      hist: seq<LogRow>, pruned: nat, careful: bool, cutoff: int)
    requires LogOk(db, log, nextSeq, now, tables, hist, pruned, careful)
    ensures |Surviving(log, cutoff)| == |log| - Expired(log, cutoff)
    ensures LogOk(db, Surviving(log, cutoff), nextSeq, now, tables, hist, pruned + Expired(log, cutoff),
                  careful && cutoff <= now - SNAPSHOT_MAX_AGE_SEC)
  {
    var n := Expired(log, cutoff);
    PruneCutsPrefix(log, cutoff);
    TailOfTail(hist, pruned, n);
    forall j | pruned <= j < pruned + n ensures hist[j].loggedAt < cutoff {
      assert hist[j] == log[j - pruned];
    }
  }

  lemma TailOfTail(hist: seq<LogRow>, m: nat, n: nat)
    requires m + n <= |hist|
    ensures hist[m..][n..] == hist[m + n..]
  {
  }

  class Backend {
    var db: Db
    var log: seq<LogRow>
    var quarantine: seq<Op>
    /** The next value of the log's seq sequence. */
    var nextSeq: int
    var now: int
    var stored: map<Table, Stored>
    const tables: seq<Table>

    /** Every op ever logged. */
    ghost var hist: seq<LogRow>
    /** How much of the history is pruned. */
    ghost var pruned: nat
    /** The generation the stored snapshots show. */
    ghost var gen: Generation
    /** Every prune so far cut off at least a snapshot's lifetime ago. */
    ghost var careful: bool

    ghost predicate LogValid()
      reads this
    {
      LogOk(db, log, nextSeq, now, tables, hist, pruned, careful)
    }

    ghost predicate SnapshotsValid()
      reads this
    {
      DistinctNames(tables) && AuditSnapshots(stored, tables, hist, now, gen)
    }

    ghost predicate Valid()
      reads this
    {
      LogValid() && SnapshotsValid()
    }

    constructor (tables: seq<Table>, now: int)
      requires DistinctNames(tables)
      ensures Valid() && hist == [] && log == [] && db == EMPTY_DB && careful
      ensures quarantine == [] && nextSeq == 1 && stored == map[]
      ensures this.tables == tables && this.now == now
    {
      this.tables, this.now := tables, now;
      db, log, quarantine, nextSeq, stored := EMPTY_DB, [], [], 1, map[];
      hist, pruned, gen, careful := [], 0, Generation(0, 0, now, map[]), true;
    }

    method Elapse(seconds: nat)
      requires Valid()
      modifies this`now
      ensures Valid() && now == old(now) + seconds
    {
      hide LogOk, AuditSnapshots;
      ElapseKeepsLog(db, log, nextSeq, now, tables, hist, pruned, careful, now + seconds);
      ElapseKeepsSnapshots(stored, tables, hist, now, gen, now + seconds);
      now := now + seconds;
    }

    /** `push`. An op that does not decode is quarantined and the batch goes
        on; an SQL error at op `failAt` (or at the commit, when that is the batch's
        length) rolls the whole push back, leaving only a gap in the seqs. */
    method Push(ops: seq<Op>, failAt: Option<nat>) returns (cursor: Option<int>)
      requires Valid() && forall op | op in ops :: op.table in tables
      modifies this`db, this`log, this`quarantine, this`nextSeq, this`hist
      ensures Valid()
      ensures cursor.None? <==> failAt.Some? && failAt.value <= |ops|
      ensures cursor.None? ==> db == old(db) && log == old(log) && quarantine == old(quarantine) && hist == old(hist)
      ensures cursor.Some? ==>
                var rows := NewRows(Accepted(ops), old(nextSeq), now);
                && hist == old(hist) + rows && log == old(log) + rows
                && quarantine == old(quarantine) + Rejected(ops)
                && db == Replay(old(db), ops)
                && cursor.value == Head(log)
                && nextSeq == old(nextSeq) + |Accepted(ops)|
      ensures nextSeq >= old(nextSeq)
    {
      hide LogOk, AuditSnapshots, RowsWithin, NewRows, Accepted, Rejected, Replay, Head;
      var ok, txDb, rows, rejected, txSeq := Transact(db, ops, nextSeq, now, failAt);
      if !ok {
        GapKeepsLog(db, log, nextSeq, now, tables, hist, pruned, careful, txSeq);
        nextSeq := txSeq;
        return None;
      }
      SeqsAreFresh(db, log, nextSeq, now, tables, hist, pruned, careful);
      PushKeepsHistory(db, log, nextSeq, now, tables, hist, pruned, careful, ops);
      PushKeepsSnapshots(stored, nextSeq, tables, now, hist, gen, Accepted(ops));
      hist := hist + rows;
      db, log, quarantine, nextSeq := txDb, log + rows, quarantine + rejected, txSeq;
      return Some(Head(log));
    }

    /** `prune_sync_log`. */
    method Prune(cutoff: int) returns (removed: nat)
      requires Valid()
      modifies this`log, this`pruned, this`careful
      ensures Valid() && log == Surviving(old(log), cutoff) && removed == |old(log)| - |log|
      ensures careful == (old(careful) && cutoff <= now - 3600)
      ensures pruned == old(pruned) + removed
    {
      hide LogOk, AuditSnapshots;
      PruneKeepsLog(db, log, nextSeq, now, tables, hist, pruned, careful, cutoff);
      var kept := Surviving(log, cutoff);
      removed := |log| - |kept|;
      pruned := pruned + Expired(log, cutoff);
      careful := careful && cutoff <= now - SNAPSHOT_MAX_AGE_SEC;
      log := kept;
    }

    lemma LogOrdered()
      requires LogValid()
      ensures Ordered(log)
    {
    }

    /** `rebuild_snapshots`: one generation of every table at one point. */
    method RebuildSnapshots()
      requires Valid()
      modifies this`stored, this`gen
      ensures Valid() && stored != map[]
      ensures gen == Generation(|hist|, Head(log), now, db.rows)
    {
      var next := ExtractTables(Head(log));
      assert hist[..|hist|] == hist;
      assert tables[0] in next;
      stored := next;
      gen := Generation(|hist|, Head(log), now, db.rows);
    }

    /** Overwrite every table's stored snapshot, one table at a time. */
    method ExtractTables(head: int) returns (next: map<Table, Stored>)
      requires Valid()
      ensures next.Keys == set t | t in tables
      ensures forall t | t in next :: next[t].seqno == head && next[t].createdAt == now
                                      && ListsTable(next[t].rows, t, db.rows)
    {
      next := stored;
      for i := 0 to |tables|
        invariant next.Keys == stored.Keys + (set t | t in tables[..i])
        invariant forall t | t in tables[..i] :: next[t].seqno == head && next[t].createdAt == now
                                                 && ListsTable(next[t].rows, t, db.rows)
      {
        var rows := ReadTable(tables[i]);
        assert tables[..i + 1] == tables[..i] + [tables[i]];
        next := next[tables[i] := Stored(head, now, rows)];
      }
      assert tables[..|tables|] == tables;
    }

    /** One table's live rows. */
    method ReadTable(table: Table) returns (rows: seq<Row>)
      requires LogValid()
      ensures ListsTable(rows, table, db.rows)
    {
      ReplayWellKeyed(EMPTY_DB, Ops(hist));
      rows := [];
      var left := set k | k in db.rows && k.table == table;
      while left != {}
        invariant forall k | k in left :: k in db.rows && k.table == table
        invariant forall r | r in rows :: var k := Key(table, r.id); k in db.rows && db.rows[k] == r && k !in left
        invariant forall k | k in db.rows && k.table == table :: k in left || db.rows[k] in rows
        invariant DistinctRows(rows)
        decreases left
      {
        var k :| k in left;
        assert db.rows[k].id == k.id && k == Key(table, k.id);
        rows := rows + [db.rows[k]];
        left := left - {k};
      }
    }

    /** `load_or_build_snapshot`: the stored generation if it is fresh enough,
        else a rebuilt one, with today's tombstones. */
    method LoadOrBuildSnapshot() returns (seqno: int, data: seq<TableData>, tombs: seq<Tombstone>)
      requires Valid()
      modifies this`stored, this`gen
      ensures Valid() && stored != map[] && seqno == gen.seqno
      ensures gen == if old(stored) != map[] && Head(log) - old(gen).seqno <= 5000
                        && now - old(gen).time < 3600
                     then old(gen) else Generation(|hist|, Head(log), now, db.rows)
      ensures DistinctTables(data) && (forall td | td in data :: td.table in tables)
      ensures forall k :: SnapRow(data, k) == Find(gen.rows, k)
      ensures TombsOf(tombs) == db.tombs && DistinctTombs(tombs)
    {
      var reusable := StoredIsFresh();
      if !reusable {
        RebuildSnapshots();
      }
      seqno, data := ServeTables();
      tombs := ReadTombstones();
    }

    /** Young enough, and close enough to the log head. */
    method StoredIsFresh() returns (reusable: bool)
      requires Valid()
      ensures reusable <==> stored != map[] && Head(log) - gen.seqno <= 5000 && now - gen.time < 3600
    {
      reusable := false;
      if stored != map[] {
        var t :| t in stored.Keys;
        reusable := Head(log) - stored[t].seqno <= SNAPSHOT_MAX_LAG && now - stored[t].createdAt < SNAPSHOT_MAX_AGE_SEC;
      }
    }

    method ServeTables() returns (seqno: int, data: seq<TableData>)
      requires Valid() && stored != map[]
      ensures seqno == gen.seqno
      ensures DistinctTables(data) && (forall td | td in data :: td.table in tables)
      ensures forall k :: SnapRow(data, k) == Find(gen.rows, k)
    {
      assert (forall t | t in tables :: t in stored) && stored[tables[0]].seqno == gen.seqno;
      hide LogOk, AuditSnapshots;
      seqno := stored[tables[0]].seqno;
      data := [];
      for i := 0 to |tables|
        invariant |data| == i && forall j | 0 <= j < i :: data[j] == TableData(tables[j], stored[tables[j]].rows)
      {
        data := data + [TableData(tables[i], stored[tables[i]].rows)];
      }
      ServedRows(data);
    }

    /** The served tables show, on every key, the generation's rows. */
    lemma ServedRows(data: seq<TableData>)
      requires Valid() && stored != map[]
      requires |data| == |tables|
               && forall j | 0 <= j < |data| :: data[j] == TableData(tables[j], stored[tables[j]].rows)
      ensures DistinctTables(data) && (forall td | td in data :: td.table in tables)
      ensures forall k :: SnapRow(data, k) == Find(gen.rows, k)
    {
      ServedFacts(data);
      hide LogOk, AuditSnapshots, ListsTable, Replay;
      forall k ensures SnapRow(data, k) == Find(gen.rows, k) {
        ServedKey(data, tables, gen.rows, Ops(hist[..gen.at]), k);
      }
    }

    lemma ServedFacts(data: seq<TableData>)
      requires Valid() && stored != map[]
      requires |data| == |tables|
               && forall j | 0 <= j < |data| :: data[j] == TableData(tables[j], stored[tables[j]].rows)
      ensures gen.at <= |hist| && Served(data, tables, gen.rows, Ops(hist[..gen.at]))
      ensures DistinctTables(data) && (forall td | td in data :: td.table in tables)
    {
    }

    method ReadTombstones() returns (tombs: seq<Tombstone>)
      ensures TombsOf(tombs) == db.tombs && DistinctTombs(tombs)
    {
      tombs := [];
      var left := db.tombs.Keys;
      while left != {}
        invariant left <= db.tombs.Keys
        invariant TombsOf(tombs) == map k | k in db.tombs && k !in left :: db.tombs[k]
        invariant forall t | t in tombs :: Key(t.table, t.id) !in left
        invariant DistinctTombs(tombs)
        decreases left
      {
        var k :| k in left;
        var t := Tombstone(k.table, k.id, db.tombs[k]);
        assert Key(t.table, t.id) == k;
        assert (tombs + [t])[..|tombs|] == tombs;
        tombs := tombs + [t];
        left := left - {k};
      }
    }
  }

  /** The data lists, table by table, the rows that replaying the ops leaves. */
  ghost predicate Served(data: seq<TableData>, tables: seq<Table>, rows: map<Key, Row>, ops: seq<Op>) {
    && |data| == |tables| && rows == Replay(EMPTY_DB, ops).rows
    && (forall j | 0 <= j < |data| :: data[j].table == tables[j] && ListsTable(data[j].rows, tables[j], rows))
    && (forall i, j | 0 <= i < j < |tables| :: tables[i] != tables[j])
    && forall op | op in ops :: op.table in tables
  }

  lemma ServedKey(data: seq<TableData>, tables: seq<Table>, rows: map<Key, Row>, ops: seq<Op>, k: Key)
    requires Served(data, tables, rows, ops)
    ensures SnapRow(data, k) == Find(rows, k)
  {
    hide ListsTable, Replay;
    if k.table in tables {
      var j :| 0 <= j < |tables| && tables[j] == k.table;
      SnapRowAt(data, k, j);
      ReplayWellKeyed(EMPTY_DB, ops);
      ListedRow(data[j].rows, k.table, rows, k.id);
    } else {
      NoSnapRow(data, k);
      RowsAreOfTables(tables, ops, k);
    }
  }

  lemma RowsAreOfTables(tables: seq<Table>, ops: seq<Op>, k: Key)
    requires k.table !in tables && forall op | op in ops :: op.table in tables
    ensures k !in Replay(EMPTY_DB, ops).rows
  {
    ReplayPerKey(EMPTY_DB, ops, k);
    NoWritesOffKeys(k, ops);
  }

  lemma {:induction false} SnapRowAt(data: seq<TableData>, k: Key, j: nat)
    requires j < |data| && data[j].table == k.table
    requires forall a, b | 0 <= a < b < |data| :: data[a].table != data[b].table
    ensures SnapRow(data, k) == RowFor(data[j].rows, k.id)
  {
    if j == |data| - 1 {
    } else {
      SnapRowAt(data[..|data| - 1], k, j);
    }
  }

  lemma NewRowsSnoc(ops: seq<Op>, op: Op, from: int, at: int)
    ensures NewRows(ops + [op], from, at) == NewRows(ops, from, at) + [LogRow(from + |ops|, op, at)]
  {
  }

  /** The body of a push's transaction: apply each op, then log it; quarantine
      what does not decode; stop at an SQL error. */
  method Transact(db: Db, ops: seq<Op>, from: int, at: int, failAt: Option<nat>)
    returns (ok: bool, txDb: Db, rows: seq<LogRow>, rejected: seq<Op>, txSeq: int)
    ensures ok <==> failAt.None? || failAt.value > |ops|
    ensures ok ==> && txDb == Replay(db, ops) && rows == NewRows(Accepted(ops), from, at)
                   && rejected == Rejected(ops) && txSeq == from + |Accepted(ops)|
    ensures txSeq >= from
  {
    ok, txDb, rows, rejected, txSeq := true, db, [], [], from;
    for i := 0 to |ops|
      invariant failAt.Some? ==> failAt.value >= i
      invariant txDb == Replay(db, ops[..i])
      invariant rows == NewRows(Accepted(ops[..i]), from, at)
      invariant rejected == Rejected(ops[..i])
      invariant txSeq == from + |Accepted(ops[..i])|
    {
      if failAt == Some(i) {
        ok := false;
        return;
      }
      var op := ops[i];
      assert ops[..i + 1][..i] == ops[..i];
      var applied := ApplyOne(txDb, op);
      if applied.None? {
        rejected := rejected + [op];
      } else {
        NewRowsSnoc(Accepted(ops[..i]), op, from, at);
        txDb := applied.value;
        rows := rows + [LogRow(txSeq, op, at)];
        txSeq := txSeq + 1;
      }
    }
    assert ops[..|ops|] == ops;
    ok := failAt != Some(|ops|);
  }
}
