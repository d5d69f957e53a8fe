/**
 Per-connection decisions: the handshake, pushes, and whether a pull is
 answered by a snapshot or by a replay window.
 */
module Session {
  import opened Protocol
  import opened Store
  import opened Windows
  import opened Snapshots
  import opened SyncLog
  import opened Server

  /** Far behind, or its next needed seq was pruned away. */
  predicate WantsSnapshot(log: seq<LogRow>, since: int) {
    || Head(log) - since > SNAPSHOT_AFTER_OPS
    || (Floor(log).Some? && since + 1 < Floor(log).value)
  }

  class Connection {
    /** One snapshot per connection, at most. */
    var snapshotted: bool
    const version: SchemaVersion

    constructor (version: SchemaVersion)
      ensures !snapshotted && this.version == version
    {
      this.version := version;
      snapshotted := false;
    }

    /** `on_text`: one client message, one reply; no reply is an SQL error,
        which ends the session. */
    method OnText(server: Backend, msg: ClientMsg, failAt: Option<nat>) returns (reply: Option<ServerMsg>)
      requires server.Valid() && (msg.Push? ==> forall op | op in msg.ops :: op.table in server.tables)
      modifies this, server
      ensures server.Valid() && server.now == old(server.now) && server.careful == old(server.careful)
      ensures server.pruned == old(server.pruned)
      ensures msg.Hello? ==>
                && reply == Some(if version.major == msg.version.major && version.minor == msg.version.minor
                                 then Ready(version) else Incompatible(version, msg.version))
                && server.hist == old(server.hist) && snapshotted == old(snapshotted)
      ensures msg.Push? ==>
                && snapshotted == old(snapshotted)
                && (reply.None? <==> failAt.Some? && failAt.value <= |msg.ops|)
                && (reply.Some? ==> reply == Some(Ack(Head(server.log), msg.batch))
                                    && server.db == Replay(old(server.db), msg.ops)
                                    && server.quarantine == old(server.quarantine) + Rejected(msg.ops)
                                    && Ops(server.hist) == Ops(old(server.hist)) + Accepted(msg.ops))
                && (reply.None? ==> server.hist == old(server.hist) && server.quarantine == old(server.quarantine)
                                    && server.db == old(server.db))
      ensures !msg.Push? ==> server.hist == old(server.hist) && server.log == old(server.log)
                             && server.db == old(server.db) && server.quarantine == old(server.quarantine)
      ensures msg.Pull? ==>
                && reply.Some? && (reply.value.Snapshot? || reply.value.Events?)
                && (reply.value.Snapshot? <==>
                      !old(snapshotted) && (|| Head(server.log) - msg.since > 50
                                            || (server.log != [] && server.log[0].seqno > msg.since + 1)))
      ensures msg.Pull? && reply.value.Snapshot? ==>
                && snapshotted
                && server.stored != map[] && reply.value.seqno == server.gen.seqno
                && server.now - server.gen.time < 3600
                && DistinctTables(reply.value.tables)
                && (forall td | td in reply.value.tables :: td.table in server.tables)
                && (forall k :: SnapRow(reply.value.tables, k) == Find(server.gen.rows, k))
                && TombsOf(reply.value.tombstones) == server.db.tombs && DistinctTombs(reply.value.tombstones)
      ensures msg.Pull? && reply.value.Events? ==>
                var w := PullSince(Head(server.log), server.log, msg.since);
                && snapshotted == old(snapshotted) && reply == Some(Events(w.events, w.cursor))
                && server.gen == old(server.gen)
    {
      hide LogOk, AuditSnapshots;
      match msg {
        case Hello(client) =>
          reply := Some(if version.WireCompatible(client) then Ready(version) else Incompatible(version, client));
        case Push(ops, batch) =>
          var cursor := server.Push(ops, failAt);
          if cursor.None? {
            reply := None;
          } else {
            AppendedOps(old(server.hist), Accepted(ops), old(server.nextSeq), server.now);
            reply := Some(Ack(cursor.value, batch));
          }
        case Pull(since) =>
          if WantsSnapshot(server.log, since) && !snapshotted {
            snapshotted := true;
            var seqno, tables, tombs := server.LoadOrBuildSnapshot();
            reply := Some(Snapshot(seqno, tables, tombs));
          } else {
            var w := PullSince(Head(server.log), server.log, since);
            reply := Some(Events(w.events, w.cursor));
          }
      }
    }
  }

  // ---------------------------------------------------------------------
  // Pruning and the snapshot decision
  // ---------------------------------------------------------------------

  /** The decision in terms of the log's rows: some row is more than 50 seqs
      ahead, or every surviving row leaves a gap behind the next seq needed. So a
      client at most 50 seqs behind whose next seq survives is sent its window. */
  lemma {:induction false} SnapshotWantedExactly(log: seq<LogRow>, since: int)
    requires Ordered(log) && since >= -1
    ensures WantsSnapshot(log, since) <==>
              || (exists row | row in log :: row.seqno > since + 50)
              || (log != [] && forall row | row in log :: row.seqno > since + 1)
    ensures since <= Head(log) <= since + 50 && (exists row | row in log :: row.seqno == since + 1) ==>
              !WantsSnapshot(log, since)
  {
    if log != [] {
      assert log[0] in log && log[|log| - 1] in log;
      forall row | row in log ensures log[0].seqno <= row.seqno <= Head(log) {
      }
    }
  }

  /** Some history row past the cursor is no longer in the log. */
  ghost predicate MissesPruned(hist: seq<LogRow>, pruned: nat, since: int)
    requires pruned <= |hist|
  {
    exists j | 0 <= j < pruned :: hist[j].seqno > since
  }

  /** A client whose cursor misses pruned rows is sent a snapshot exactly when
      the log still has a row and the connection's one snapshot is unspent: once
      everything is pruned there is no floor to compare with, and the client is
      told it is up to date. */
  lemma PruneGateExact(hist: seq<LogRow>, pruned: nat, since: int, snapshotted: bool)
    requires Ordered(hist) && pruned <= |hist| && since >= -1 && MissesPruned(hist, pruned, since)
    ensures WantsSnapshot(hist[pruned..], since) && !snapshotted <==> hist[pruned..] != [] && !snapshotted
    ensures hist[pruned..] == [] ==> PullSince(Head(hist[pruned..]), hist[pruned..], since) == Window([], 0)
  {
    var j :| 0 <= j < pruned && hist[j].seqno > since;
    if hist[pruned..] != [] {
      assert hist[pruned..][0] == hist[pruned];
      assert hist[j].seqno < hist[pruned].seqno;
    }
  }

  /** What such a client then loses if it is replayed to: every pruned row past
      its cursor, and it is told nothing. */
  lemma ReplayAcrossPruneSkips(hist: seq<LogRow>, pruned: nat, since: int)
    requires Ordered(hist) && pruned <= |hist| && MissesPruned(hist, pruned, since)
    ensures Ordered(hist[pruned..]) && Flat(Chain(hist[pruned..], since)) == Ops(hist[pruned..])
    ensures Upto(hist, since) < pruned
  {
    var log := hist[pruned..];
    assert Upto(hist, since) < pruned by {
      var j :| 0 <= j < pruned && hist[j].seqno > since;
      UptoSplits(hist, since);
    }
    assert log[Upto(log, since)..] == log by {
      LogIsTail(hist, pruned, since);
    }
    assert Ordered(log);
    ChainIsExact(log, since);
  }

  /** A replay that is not a snapshot misses nothing. */
  lemma ReplayMissesNothing(hist: seq<LogRow>, pruned: nat, since: int)
    requires Ordered(hist) && pruned < |hist| && !WantsSnapshot(hist[pruned..], since)
    ensures var log := hist[pruned..]; log[Upto(log, since)..] == hist[Upto(hist, since)..]
  {
    var log := hist[pruned..];
    assert log[0] == hist[pruned];
    UptoSplits(hist, since);
    LogIsTail(hist, pruned, since);
    assert pruned > 0 ==> hist[pruned - 1].seqno <= since;
  }

  function Max(a: nat, b: nat): nat { if a < b then b else a }

  /** What a cursor leaves of a pruned log, in terms of the history. */
  lemma LogIsTail(hist: seq<LogRow>, pruned: nat, since: int)
    requires Ordered(hist) && pruned <= |hist|
    ensures var log := hist[pruned..]; log[Upto(log, since)..] == hist[Max(pruned, Upto(hist, since))..]
  {
    var log := hist[pruned..];
    UptoSplits(hist, since);
    var n := Max(pruned, Upto(hist, since)) - pruned;
    forall j | 0 <= j < |log| ensures j < n <==> log[j].seqno <= since {
      assert log[j] == hist[pruned + j];
    }
    UptoUnique(log, since, n);
  }

  /** Pruning never opens a gap behind a served snapshot: if every prune cut
      off at least a snapshot's lifetime ago, the log rows after a served
      snapshot's seq reach back to the point the snapshot shows, and if the
      log was not empty when it was taken they are exactly the history after
      its seq. */
  lemma ServedSnapshotHasNoGap(db: Db, log: seq<LogRow>, nextSeq: int, now: int, tables: seq<Table>,
                               hist: seq<LogRow>, pruned: nat, gen: Generation)
    requires LogOk(db, log, nextSeq, now, tables, hist, pruned, true)
    requires GenerationOk(hist, now, gen) && now - gen.time < 3600
    ensures pruned <= gen.at && Upto(hist, gen.seqno) <= gen.at
    ensures log[Upto(log, gen.seqno)..] == hist[Max(pruned, Upto(hist, gen.seqno))..]
    ensures gen.seqno > 0 ==> Upto(hist, gen.seqno) == gen.at && log[Upto(log, gen.seqno)..] == hist[gen.at..]
  {
    GenerationCut(hist, now, gen);
    LogIsTail(hist, pruned, gen.seqno);
    if gen.at < |hist| { assert hist[gen.at].loggedAt >= gen.time; }
  }

  lemma GenerationCut(hist: seq<LogRow>, now: int, gen: Generation)
    requires Ordered(hist) && GenerationOk(hist, now, gen)
    ensures Upto(hist, gen.seqno) <= gen.at
    ensures gen.seqno > 0 ==> Upto(hist, gen.seqno) == gen.at
  {
    UptoSplits(hist, gen.seqno);
    var n := Upto(hist, gen.seqno);
    assert n <= gen.at by {
      if gen.at < |hist| { assert hist[gen.at].seqno > gen.seqno; }
    }
    if gen.seqno > 0 {
      assert gen.at - 1 < n;
    }
  }
}
