/**
 A whole catch-up dialogue between a client and a quiet server: Pull, at most
 one snapshot, then windows until an empty one.
 */
module WholeRun {
  import opened Protocol
  import opened Register
  import opened Store
  import opened Windows
  import opened Snapshots
  import opened SyncLog
  import opened Server
  import opened Session
  import opened Batches
  import opened Replica
  import opened Convergence

  // ---------------------------------------------------------------------
  // Facts about the dialogue
  // ---------------------------------------------------------------------

  /** What is left to do from a cursor. */
  function Backlog(log: seq<LogRow>, c: int): nat {
    |log| - Upto(log, c)
  }

  lemma OpsSlices(log: seq<LogRow>, n: nat)
    requires n <= |log|
    ensures Ops(log[..n]) == Ops(log)[..n] && Ops(log[n..]) == Ops(log)[n..]
  {
  }

  ghost predicate OfTables(log: seq<LogRow>, tables: set<Table>) {
    forall i | 0 <= i < |log| :: log[i].op.table in tables
  }

  lemma EventsAreSunk(log: seq<LogRow>, c: int, sinks: set<Table>)
    requires OfTables(log, sinks)
    ensures forall op | op in PullSince(Head(log), log, c).events :: op.table in sinks
  {
  }

  /** An empty window means the cursor is at the head, and says so. */
  lemma EmptyWindow(log: seq<LogRow>, c: int)
    requires Ordered(log) && log != [] && PullSince(Head(log), log, c).events == []
    ensures Head(log) <= c && Chain(log, c) == [] && PullSince(Head(log), log, c).cursor == Head(log)
  {
    if c < Head(log) { PullIsExact(Head(log), log, c); }
  }

  lemma NextWindow(log: seq<LogRow>, c: int)
    requires Ordered(log) && log != [] && PullSince(Head(log), log, c).events != []
    ensures var w := PullSince(Head(log), log, c);
            && Chain(log, c) == [w.events] + Chain(log, w.cursor)
            && Backlog(log, w.cursor) < Backlog(log, c) && c < w.cursor
  {
    PullIsExact(Head(log), log, c);
  }

  /** Seqs are distinct, so a cursor few seqs behind is few rows behind. */
  lemma {:induction false} RowsAtMostSeqs(log: seq<LogRow>, c: int)
    requires Ordered(log)
    ensures |log| - Upto(log, c) <= if Head(log) > c then Head(log) - c else 0
  {
    if |log| == 0 || log[|log| - 1].seqno <= c {
    } else {
      RowsAtMostSeqs(log[..|log| - 1], c);
    }
  }

  // ---------------------------------------------------------------------
  // Where the dialogue ends
  // ---------------------------------------------------------------------

  /** A backlog below the snapshot threshold is one window. */
  lemma ShortChain(log: seq<LogRow>, c: int)
    requires Ordered(log) && log != [] && Head(log) - c <= SNAPSHOT_AFTER_OPS
    ensures Chain(log, c) == if Upto(log, c) == |log| then [] else [Ops(log[Upto(log, c)..])]
  {
    if Head(log) <= c {
      PullAtHead(log, c);
    } else {
      UptoSplits(log, c);
      RowsAtMostSeqs(log, c);
      PullIsExact(Head(log), log, c);
      NextWindow(log, c);
      PullAtHead(log, Head(log));
    }
  }

  lemma ShortReplay(hist: seq<LogRow>, pruned: nat, c: int)
    requires Ordered(hist) && pruned < |hist| && !WantsSnapshot(hist[pruned..], c)
    ensures Chain(hist[pruned..], c) ==
            if Upto(hist, c) == |hist| then [] else [Ops(hist)[Upto(hist, c)..]]
  {
    ReplayMissesNothing(hist, pruned, c);
    ShortChain(hist[pruned..], c);
    OpsSlices(hist, Upto(hist, c));
    SameLength(hist[pruned..], Upto(hist[pruned..], c), hist, Upto(hist, c));
  }

  lemma SameLength<T>(a: seq<T>, m: nat, b: seq<T>, n: nat)
    requires m <= |a| && n <= |b| && a[m..] == b[n..]
    ensures m == |a| <==> n == |b|
  {
    assert |a[m..]| == |b[n..]|;
  }

  /** Where a replayed catch-up of the replica `before` from its first `n` ops
      ends, if no delete of the backlog is blind: trailing the server again
      exactly when the backlog resurrects nothing, and at the server exactly
      when it levels every key. */
  ghost predicate ReplayEnd(before: Db, end: Db, ops: seq<Op>, n: nat)
    requires n <= |ops|
  {
    var was, backlog := Replay(EMPTY_DB, ops[..n]), ops[n..];
    Trails(before, ops, n) && NoBlindOps(was, backlog) ==>
      && (Trails(end, ops, |ops|) <==> NoneResurrects(before, was, backlog))
      && (end == Replay(EMPTY_DB, ops) <==> AllLevel(before, was, backlog))
  }

  lemma {:induction false} ReplayEndsAtServer(local: Db, hist: seq<LogRow>, pruned: nat, c: int)
    requires Ordered(hist) && pruned < |hist| && !WantsSnapshot(hist[pruned..], c)
    ensures ReplayEnd(local, ApplyWindows(local, Chain(hist[pruned..], c)), Ops(hist), Upto(hist, c))
  {
    var ops, n, vs := Ops(hist), Upto(hist, c), Chain(hist[pruned..], c);
    assert vs == if n == |ops| then [] else [ops[n..]] by {
      ShortReplay(hist, pruned, c);
    }
    OneWindowEnds(local, ops, n, vs);
  }

  lemma OneWindowEnds(local: Db, ops: seq<Op>, n: nat, vs: seq<seq<Op>>)
    requires n <= |ops| && vs == if n == |ops| then [] else [ops[n..]]
    ensures ReplayEnd(local, ApplyWindows(local, vs), ops, n)
  {
    assert ApplyWindows(local, vs) == ApplyWindow(local, ops[n..]) by {
      if n < |ops| {
        WindowsSnoc(local, [], ops[n..]);
        assert [] + [ops[n..]] == [ops[n..]];
      } else {
        WindowOfNothing(local);
      }
    }
    assert ops[n..|ops|] == ops[n..] && ops[..|ops|] == ops;
    if Trails(local, ops, n) && NoBlindOps(Replay(EMPTY_DB, ops[..n]), ops[n..]) {
      WindowTrailsExactly(local, ops, n, |ops|);
    }
  }

  /** A replica that is the server as of its cursor catches up to the server's
      rows, and to its tombstones exactly when no key was both created and
      deleted in the backlog. */
  lemma {:induction false} ExactReplayEnds(ops: seq<Op>, n: nat, end: Db)
    requires n <= |ops| && NoBlindOps(Replay(EMPTY_DB, ops[..n]), ops[n..])
    requires ReplayEnd(Replay(EMPTY_DB, ops[..n]), end, ops, n)
    ensures end.rows == Replay(EMPTY_DB, ops).rows
    ensures end == Replay(EMPTY_DB, ops) <==> !LosesSomeTombstone(Replay(EMPTY_DB, ops[..n]), ops[n..])
  {
    hide Trails, NoneResurrects, AllLevel, LosesSomeTombstone;
    ServerTrails(ops, n);
    LevelsItself(Replay(EMPTY_DB, ops[..n]), ops[n..]);
    TrailsAtHead(end, ops);
  }

  lemma TrailsAtHead(end: Db, ops: seq<Op>)
    ensures Trails(end, ops, |ops|) ==> end.rows == Replay(EMPTY_DB, ops).rows
  {
    assert ops[..|ops|] == ops;
  }

  lemma LevelsItself(was: Db, backlog: seq<Op>)
    ensures NoneResurrects(was, was, backlog)
    ensures AllLevel(was, was, backlog) <==> !LosesSomeTombstone(was, backlog)
  {
    if LosesSomeTombstone(was, backlog) {
      var k :| LosesTombstone(CellOf(was, k), k, backlog);
      assert !Levels(CellOf(was, k), CellOf(was, k), Winner(WritesOn(k, backlog)));
    } else {
      forall k ensures Levels(CellOf(was, k), CellOf(was, k), Winner(WritesOn(k, backlog))) {
        assert !LosesTombstone(CellOf(was, k), k, backlog);
      }
    }
  }

  /** Where the replay after the snapshot served at `served` starts. */
  function ServedFrom(hist: seq<LogRow>, pruned: nat, served: int): nat {
    Max(pruned, Upto(hist, served))
  }

  /** No delete after the served seq is blind, and the replica holds only what
      the server once held. */
  ghost predicate SnapshotApplies(before: Db, hist: seq<LogRow>, pruned: nat, served: int)
    requires pruned <= |hist|
  {
    var ops, s := Ops(hist), ServedFrom(hist, pruned, served);
    ServerHeld(before, ops) && NoBlindOps(Replay(EMPTY_DB, ops[..s]), ops[s..])
  }

  /** Where a snapshot catch-up then ends: at the server
      exactly when every local live row the server deleted meets a newer delete
      in the replay. */
  ghost predicate SnapshotEnd(before: Db, end: Db, hist: seq<LogRow>, pruned: nat, served: int)
    requires Ordered(hist) && pruned <= |hist|
  {
    TailOrdered(hist, pruned);
    var ops, vs := Ops(hist), Chain(hist[pruned..], served);
    SnapshotApplies(before, hist, pruned, served) ==>
      (end == Replay(EMPTY_DB, ops) <==> StaleRowsRemoved(before, Replay(EMPTY_DB, ops), k => Winners(k, vs)))
  }

  lemma TailOrdered(hist: seq<LogRow>, pruned: nat)
    requires Ordered(hist) && pruned <= |hist|
    ensures Ordered(hist[pruned..])
  {
  }

  lemma {:induction false} SnapshotEndsAtServer(local: Db, hist: seq<LogRow>, pruned: nat, gen: Generation, now: int,
                                                tables: seq<TableData>, tombs: seq<Tombstone>)
    requires Ordered(hist) && pruned <= gen.at <= |hist| && GenerationOk(hist, now, gen)
    requires DistinctTables(tables) && (forall k :: SnapRow(tables, k) == Find(gen.rows, k))
    requires TombsOf(tombs) == Replay(EMPTY_DB, Ops(hist)).tombs
    ensures var installed := Install(local, tables, tombs);
            SnapshotEnd(local, ApplyWindows(installed, Chain(hist[pruned..], gen.seqno)), hist, pruned, gen.seqno)
  {
    var ops, s, vs := Ops(hist), ServedFrom(hist, pruned, gen.seqno), Chain(hist[pruned..], gen.seqno);
    ReplayAfterSnapshot(hist, pruned, gen, now);
    if SnapshotApplies(local, hist, pruned, gen.seqno) {
      assert RowsReadBetween(tables, ops, s, |ops|) by {
        ReadAtGeneration(tables, ops, s, gen);
      }
      QuietSnapshotBootstrap(ops, local, s, vs, tables, tombs);
    }
  }

  /** The replay after a snapshot covers the history from some point at or
      before the one the snapshot shows. */
  lemma ReplayAfterSnapshot(hist: seq<LogRow>, pruned: nat, gen: Generation, now: int)
    requires Ordered(hist) && pruned <= gen.at <= |hist| && GenerationOk(hist, now, gen)
    ensures ServedFrom(hist, pruned, gen.seqno) <= gen.at
    ensures Flat(Chain(hist[pruned..], gen.seqno)) == Ops(hist)[ServedFrom(hist, pruned, gen.seqno)..]
    ensures gen.rows == Replay(EMPTY_DB, Ops(hist)[..gen.at]).rows
  {
    var s := ServedFrom(hist, pruned, gen.seqno);
    GenerationCut(hist, now, gen);
    LogIsTail(hist, pruned, gen.seqno);
    ChainIsExact(hist[pruned..], gen.seqno);
    OpsSlices(hist, s);
    OpsSlices(hist, gen.at);
  }

  lemma ReadAtGeneration(tables: seq<TableData>, ops: seq<Op>, s: nat, gen: Generation)
    requires s <= gen.at <= |ops| && gen.rows == Replay(EMPTY_DB, ops[..gen.at]).rows
    requires forall k :: SnapRow(tables, k) == Find(gen.rows, k)
    ensures RowsReadBetween(tables, ops, s, |ops|)
  {
    forall k ensures exists r :: s <= r <= |ops| && SnapRow(tables, k) == Find(Replay(EMPTY_DB, ops[..r]).rows, k) {
      assert SnapRow(tables, k) == Find(Replay(EMPTY_DB, ops[..gen.at]).rows, k);
    }
  }

  /** The server once held every row and tombstone of the snapshot. */
  ghost predicate HeldToo(tables: seq<TableData>, tombs: seq<Tombstone>, ops: seq<Op>) {
    && (forall k, row | ListsRow(tables, k, row) ::
          exists n | 0 <= n <= |ops| :: CellAt(ops, k, n).row == Some(row))
    && (forall k: Key, at: Ts | Tombstone(k.table, k.id, at) in tombs ::
          exists n | 0 <= n <= |ops| :: CellAt(ops, k, n).tomb == Some(at))
  }

  /** A snapshot that failed halfway leaves a replica the next one can start
      from: it still holds only what the server once held. */
  lemma HalfInstallKeepsHeld(local: Db, now: Db, ops: seq<Op>, tables: seq<TableData>, tombs: seq<Tombstone>)
    requires ServerHeld(local, ops) && HalfInstalled(local, now, tables, tombs) && HeldToo(tables, tombs, ops)
    ensures ServerHeld(now, ops)
  {
    forall k | k in now.rows ensures exists n | 0 <= n <= |ops| :: CellAt(ops, k, n).row == Some(now.rows[k]) {
      assert HalfCell(CellOf(local, k), CellOf(now, k), k, tables, tombs);
    }
    forall k | k in now.tombs ensures exists n | 0 <= n <= |ops| :: CellAt(ops, k, n).tomb == Some(now.tombs[k]) {
      assert HalfCell(CellOf(local, k), CellOf(now, k), k, tables, tombs);
    }
  }

  // ---------------------------------------------------------------------
  // The dialogue itself
  // ---------------------------------------------------------------------

  /** The replay part: pull from the own cursor until a window is empty. */
  method ReplayUntilEmpty(server: Backend, session: Connection, client: Client)
    requires server.Valid() && server.log != [] && client.columns > 0
    requires session.snapshotted || !WantsSnapshot(server.log, client.cursor)
    requires OfTables(server.log, client.sinks)
    modifies session, client, server
    ensures server.Valid() && server.db == old(server.db) && server.log == old(server.log)
            && server.hist == old(server.hist)
    ensures server.pruned == old(server.pruned) && server.gen == old(server.gen)
    ensures Ordered(server.log)
    ensures client.cursor == Head(server.log)
    ensures client.db == ApplyWindows(old(client.db), Chain(server.log, old(client.cursor)))
  {
    server.LogOrdered();
    ghost var log, start, base := server.log, client.cursor, client.db;
    ghost var done: seq<seq<Op>> := [];
    var more := true;
    assert [] + Chain(log, start) == Chain(log, start);
    while more
      invariant server.Valid() && server.log == log && server.db == old(server.db) && server.hist == old(server.hist)
      invariant server.pruned == old(server.pruned) && server.gen == old(server.gen)
      invariant session.snapshotted || !WantsSnapshot(log, client.cursor)
      invariant more ==> OnTrack(log, start, base, done, client.cursor, client.db)
      invariant !more ==> client.db == ApplyWindows(base, Chain(log, start)) && client.cursor == Head(log)
      decreases more, Backlog(log, client.cursor)
    {
      ghost var c, before := client.cursor, client.db;
      ghost var w := PullSince(Head(log), log, c);
      more := PullOnce(server, session, client);
      if more {
        RoundKeepsTrack(log, start, base, done, c, before);
        done := done + [w.events];
      } else {
        RoundAtEnd(log, start, base, done, c, before);
        WindowOfNothing(before);
      }
    }
  }

  lemma WindowOfNothing(db: Db)
    ensures ApplyWindow(db, []) == db
  {
    forall k ensures CellOf(ApplyWindow(db, []), k) == CellOf(db, k) {
      ApplyWindowPerKey(db, [], k);
    }
    SameCells(ApplyWindow(db, []), db);
  }

  /** The windows so far and those to come are the chain from the start. */
  ghost predicate OnTrack(log: seq<LogRow>, start: int, base: Db, done: seq<seq<Op>>, c: int, db: Db)
    requires Ordered(log)
  {
    Chain(log, start) == done + Chain(log, c) && db == ApplyWindows(base, done)
  }

  lemma RoundKeepsTrack(log: seq<LogRow>, start: int, base: Db, done: seq<seq<Op>>, c: int, db: Db)
    requires Ordered(log) && log != [] && OnTrack(log, start, base, done, c, db)
    requires PullSince(Head(log), log, c).events != []
    ensures var w := PullSince(Head(log), log, c);
            && OnTrack(log, start, base, done + [w.events], w.cursor, ApplyWindow(db, w.events))
            && Backlog(log, w.cursor) < Backlog(log, c)
  {
    var w := PullSince(Head(log), log, c);
    NextWindow(log, c);
    MoveOne(done, w.events, Chain(log, w.cursor));
    WindowsSnoc(base, done, w.events);
  }

  lemma MoveOne<T>(a: seq<T>, x: T, b: seq<T>)
    ensures a + ([x] + b) == (a + [x]) + b
  {
  }

  lemma WindowsSnoc(base: Db, done: seq<seq<Op>>, v: seq<Op>)
    ensures ApplyWindows(base, done + [v]) == ApplyWindow(ApplyWindows(base, done), v)
  {
    assert (done + [v])[..|done|] == done;
  }

  lemma RoundAtEnd(log: seq<LogRow>, start: int, base: Db, done: seq<seq<Op>>, c: int, db: Db)
    requires Ordered(log) && log != [] && OnTrack(log, start, base, done, c, db)
    requires PullSince(Head(log), log, c).events == []
    ensures db == ApplyWindows(base, Chain(log, start)) && PullSince(Head(log), log, c).cursor == Head(log)
  {
    EmptyWindow(log, c);
    assert done + [] == done;
  }

  /** One round of it. */
  method PullOnce(server: Backend, session: Connection, client: Client) returns (more: bool)
    requires server.Valid() && server.log != [] && client.columns > 0
    requires session.snapshotted || !WantsSnapshot(server.log, client.cursor)
    requires OfTables(server.log, client.sinks) && Ordered(server.log)
    modifies session, client, server
    ensures server.Valid() && server.db == old(server.db) && server.log == old(server.log)
            && server.hist == old(server.hist)
    ensures server.pruned == old(server.pruned) && server.gen == old(server.gen)
    ensures session.snapshotted || !WantsSnapshot(server.log, client.cursor)
    ensures session.snapshotted == old(session.snapshotted) && server.careful == old(server.careful)
    ensures var w := PullSince(Head(old(server.log)), old(server.log), old(client.cursor));
            && more == (w.events != []) && client.cursor == w.cursor
            && client.db == ApplyWindow(old(client.db), w.events)
  {
    ghost var log, c := server.log, client.cursor;
    EventsAreSunk(log, c, client.sinks);
    var reply := session.OnText(server, Pull(client.cursor), None);
    var events, cursor := reply.value.events, reply.value.cursor;
    var applied;
    applied, more := client.OnEvents(events, cursor, map[]);
    if !more { EmptyWindow(log, c); } else { NextWindow(log, c); }
  }

  /** ... that fails any number of times first, each time at any statement of any
      tables, and is asked for again: it ends as if it had never failed. */
  method PullThroughFailures(server: Backend, session: Connection, client: Client, failures: seq<map<Table, nat>>)
    returns (more: bool)
    requires server.Valid() && server.log != [] && client.columns > 0
    requires session.snapshotted || !WantsSnapshot(server.log, client.cursor)
    requires OfTables(server.log, client.sinks) && Ordered(server.log)
    modifies session, client, server
    ensures server.Valid() && server.db == old(server.db) && server.log == old(server.log)
            && server.hist == old(server.hist)
    ensures var w := PullSince(Head(old(server.log)), old(server.log), old(client.cursor));
            && more == (w.events != []) && client.cursor == w.cursor
            && client.db == ApplyWindow(old(client.db), w.events)
  {
    hide Midway, ApplyWindow, Enough, SinkAll;
    ghost var before, log, c := client.db, server.log, client.cursor;
    ghost var w := PullSince(Head(log), log, c);
    NotYetStarted(before, w.events);
    for i := 0 to |failures|
      invariant server.Valid() && server.log == log && server.db == old(server.db) && server.hist == old(server.hist)
      invariant client.cursor == c && (session.snapshotted || !WantsSnapshot(log, c))
      invariant Midway(before, client.db, w.events)
    {
      ghost var mid := client.db;
      RetryHeals(before, mid, w.events);
      var applied;
      applied, more := PullFailing(server, session, client, failures[i]);
      if applied {
        return;
      }
      MidwayAgain(before, mid, client.db, w.events);
    }
    RetryHeals(before, client.db, w.events);
    more := PullOnce(server, session, client);
  }

  lemma NotYetStarted(db: Db, ops: seq<Op>)
    ensures Midway(db, db, ops)
  {
  }

  /** One such try. */
  method PullFailing(server: Backend, session: Connection, client: Client, failAt: map<Table, nat>)
    returns (applied: bool, more: bool)
    requires server.Valid() && server.log != [] && client.columns > 0
    requires session.snapshotted || !WantsSnapshot(server.log, client.cursor)
    requires OfTables(server.log, client.sinks) && Ordered(server.log)
    modifies session, client, server
    ensures server.Valid() && server.db == old(server.db) && server.log == old(server.log)
            && server.hist == old(server.hist) && session.snapshotted == old(session.snapshotted)
    ensures var w := PullSince(Head(old(server.log)), old(server.log), old(client.cursor));
            && (applied ==> more == (w.events != []) && client.cursor == w.cursor
                            && client.db == ApplyWindow(old(client.db), w.events))
            && (!applied ==> client.cursor == old(client.cursor) && Midway(old(client.db), client.db, w.events))
  {
    hide Midway, ApplyWindow, Enough, SinkAll;
    var reply := session.OnText(server, Pull(client.cursor), None);
    var events, cursor := reply.value.events, reply.value.cursor;
    EventsLeaveMidway(client.db, events, client.sinks, client.columns, failAt);
    applied, more := client.OnEvents(events, cursor, failAt);
  }

  /** One round of the other kind: a snapshot, installed. */
  method TakeSnapshot(server: Backend, session: Connection, client: Client)
    returns (tables: seq<TableData>, tombs: seq<Tombstone>)
    requires server.Valid() && server.careful && client.columns > 0
    requires !session.snapshotted && WantsSnapshot(server.log, client.cursor)
    requires forall t | t in server.tables :: t in client.sinks
    modifies session, client, server
    ensures server.Valid() && server.db == old(server.db) && server.log == old(server.log)
            && server.hist == old(server.hist)
    ensures server.pruned == old(server.pruned) && server.careful && session.snapshotted
    ensures server.pruned <= server.gen.at && GenerationOk(server.hist, server.now, server.gen)
    ensures DistinctTables(tables) && forall k :: SnapRow(tables, k) == Find(server.gen.rows, k)
    ensures TombsOf(tombs) == server.db.tombs && DistinctTombs(tombs)
    ensures client.db == Install(old(client.db), tables, tombs) && client.cursor == server.gen.seqno
  {
    var reply := session.OnText(server, Pull(client.cursor), None);
    tables, tombs := reply.value.tables, reply.value.tombstones;
    GenerationFacts(server);
    var applied := client.OnSnapshot(reply.value.seqno, tables, tombs, None, map[]);
  }

  lemma GenerationFacts(server: Backend)
    requires server.Valid() && server.careful && server.stored != map[]
    requires server.now - server.gen.time < 3600
    ensures server.pruned <= server.gen.at && GenerationOk(server.hist, server.now, server.gen)
  {
    ServedSnapshotHasNoGap(server.db, server.log, server.nextSeq, server.now, server.tables, server.hist,
                         server.pruned, server.gen);
  }

  /** What the server's invariant says, unfolded. */
  lemma LogFacts(server: Backend, sinks: set<Table>)
    requires server.Valid() && forall t | t in server.tables :: t in sinks
    ensures Ordered(server.hist) && server.pruned <= |server.hist| && server.log == server.hist[server.pruned..]
    ensures server.db == Replay(EMPTY_DB, Ops(server.hist))
    ensures OfTables(server.log, sinks)
  {
    ghost var hist, log := server.hist, server.log;
    forall i | 0 <= i < |log| ensures log[i].op.table in sinks {
      assert log[i] == hist[server.pruned + i];
    }
  }

  method CatchUpByReplay(server: Backend, session: Connection, client: Client)
    requires server.Valid() && server.log != [] && client.columns > 0
    requires !WantsSnapshot(server.log, client.cursor) && (forall t | t in server.tables :: t in client.sinks)
    modifies session, client, server
    ensures server.Valid() && server.db == old(server.db) && server.log == old(server.log)
            && server.hist == old(server.hist)
    ensures client.cursor == Head(server.log)
    ensures ReplayEnd(old(client.db), client.db, Ops(server.hist), Upto(server.hist, old(client.cursor)))
  {
    LogFacts(server, client.sinks);
    ReplayEndsAtServer(client.db, server.hist, server.pruned, client.cursor);
    ReplayUntilEmpty(server, session, client);
  }

  method CatchUpBySnapshot(server: Backend, session: Connection, client: Client)
    requires server.Valid() && server.log != [] && server.careful && client.columns > 0
    requires !session.snapshotted && (forall t | t in server.tables :: t in client.sinks)
    requires WantsSnapshot(server.log, client.cursor)
    modifies session, client, server
    ensures server.Valid() && server.db == old(server.db) && server.log == old(server.log)
            && server.hist == old(server.hist)
    ensures client.cursor == Head(server.log) && Ordered(server.hist) && server.pruned <= |server.hist|
    ensures SnapshotEnd(old(client.db), client.db, server.hist, server.pruned, server.gen.seqno)
  {
    LogFacts(server, client.sinks);
    ghost var before := client.db;
    var tables, tombs := TakeSnapshot(server, session, client);
    SnapshotEndsAtServer(before, server.hist, server.pruned, server.gen, server.now, tables, tombs);
    ReplayUntilEmpty(server, session, client);
  }

  /** The whole connection, on a quiet server whose log is not fully pruned, from
      any replica at any cursor: it ends at the head, by replay or from a
      snapshot. A replica that trails the server, as this leaves it, can start
      the next one. */
  method CatchUp(server: Backend, session: Connection, client: Client) returns (snapshot: bool)
    requires server.Valid() && server.log != [] && server.careful && client.columns > 0
    requires !session.snapshotted && (forall t | t in server.tables :: t in client.sinks)
    modifies session, client, server
    ensures server.Valid() && server.db == old(server.db) && server.log == old(server.log)
            && server.hist == old(server.hist)
    ensures client.cursor == Head(server.log) && Ordered(server.hist) && server.pruned <= |server.hist|
    ensures snapshot == WantsSnapshot(server.log, old(client.cursor))
    ensures !snapshot ==> ReplayEnd(old(client.db), client.db, Ops(server.hist), Upto(server.hist, old(client.cursor)))
    ensures snapshot ==> SnapshotEnd(old(client.db), client.db, server.hist, server.pruned, server.gen.seqno)
    ensures snapshot && old(client.db).rows == map[]
            && SnapshotApplies(old(client.db), server.hist, server.pruned, server.gen.seqno)
            ==> client.db == server.db
    ensures Replay(EMPTY_DB, Ops(server.hist)) == server.db && Upto(server.hist, client.cursor) == |server.hist|
  {
    LogFacts(server, client.sinks);
    HeadCoversAll(server.hist, server.pruned);
    snapshot := WantsSnapshot(server.log, client.cursor);
    if snapshot {
      CatchUpBySnapshot(server, session, client);
    } else {
      CatchUpByReplay(server, session, client);
    }
  }

  lemma HeadCoversAll(hist: seq<LogRow>, pruned: nat)
    requires Ordered(hist) && pruned < |hist|
    ensures Upto(hist, Head(hist[pruned..])) == |hist|
  {
    assert Head(hist[pruned..]) == Head(hist);
    UptoUnique(hist, Head(hist), |hist|);
  }
}
