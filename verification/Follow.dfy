/**
 A client that keeps pulling from its own cursor while everybody keeps pushing:
 windows, and at most one snapshot where it is far behind.
 */
module Follow {
  import opened Protocol
  import opened Store
  import opened Windows
  import opened Snapshots
  import opened SyncLog
  import opened Server
  import opened Session
  import opened Replica
  import opened Convergence
  import opened WholeRun
  import opened Stream

  /** The windows applied since `start` are exactly the history up to the cursor. */
  ghost predicate Followed(hist: seq<LogRow>, start: nat, cursor: int, vs: seq<seq<Op>>) {
    && Position(hist, start, cursor) <= |hist|
    && Flat(vs) == Ops(hist[start..Position(hist, start, cursor)])
  }

  lemma PushKeepsFollowed(hist: seq<LogRow>, more: seq<LogRow>, start: nat, cursor: int, vs: seq<seq<Op>>)
    requires Ordered(hist + more) && cursor <= Head(hist) && |hist| > 0
    requires Followed(hist, start, cursor, vs)
    ensures Followed(hist + more, start, cursor, vs) && Upto(hist + more, cursor) == Upto(hist, cursor)
  {
    UptoOfAppend(hist, more, cursor);
    SliceOfPrefix(hist, more, start, Position(hist, start, cursor));
  }

  /** A window that continues the history where the client stands. */
  lemma WindowKeepsFollowed(hist: seq<LogRow>, start: nat, p: nat, cursor: int, w: Window, vs: seq<seq<Op>>)
    requires Ordered(hist) && Followed(hist, start, cursor, vs) && p == Position(hist, start, cursor)
    requires p + |w.events| <= |hist| && StretchAt(hist, p, cursor, w)
    ensures Followed(hist, start, w.cursor, vs + [w.events]) && w.cursor <= Head(hist)
    ensures p < Upto(hist, w.cursor)
  {
    ReachesStretch(hist, p, w);
    StretchKeepsFollowed(hist, start, p, w, vs);
  }

  lemma ReachesStretch(hist: seq<LogRow>, p: nat, w: Window)
    requires Ordered(hist) && 0 < |w.events| && p + |w.events| <= |hist| && hist[p + |w.events| - 1].seqno == w.cursor
    ensures Upto(hist, w.cursor) == p + |w.events| && w.cursor <= Head(hist)
  {
    CursorAtRow(hist, p + |w.events| - 1);
  }

  lemma StretchKeepsFollowed(hist: seq<LogRow>, start: nat, p: nat, w: Window, vs: seq<seq<Op>>)
    requires start <= p && p + |w.events| <= |hist| && Upto(hist, w.cursor) == p + |w.events|
    requires Flat(vs) == Ops(hist[start..p]) && w.events == Ops(hist[p..p + |w.events|])
    ensures Followed(hist, start, w.cursor, vs + [w.events])
  {
    assert Position(hist, start, w.cursor) == p + |w.events|;
    FlatSnoc(vs, w.events);
    GlueOps(hist, start, p, p + |w.events|);
  }

  /** An empty one leaves the cursor at the head, with nothing missing. */
  lemma EmptyKeepsFollowed(hist: seq<LogRow>, start: nat, cursor: int, vs: seq<seq<Op>>)
    requires Ordered(hist) && |hist| > 0 && Head(hist) <= cursor && Followed(hist, start, cursor, vs)
    ensures Followed(hist, start, Head(hist), vs) && Upto(hist, Head(hist)) == |hist|
  {
    UptoUnique(hist, Head(hist), |hist|);
    UptoUnique(hist, cursor, |hist|);
  }

  /** What a pull of an unpruned stretch finds. */
  lemma PullContinues(hist: seq<LogRow>, pruned: nat, start: nat, cursor: int)
    requires Ordered(hist) && pruned < |hist| && start <= |hist| && NothingUnsentPruned(hist, pruned, start, cursor)
    ensures Ordered(hist[pruned..]) && Head(hist[pruned..]) == Head(hist)
    ensures var w, p := PullSince(Head(hist), hist[pruned..], cursor), Position(hist, start, cursor);
            if w.events == [] then w.cursor == Head(hist) <= cursor
            else p + |w.events| <= |hist| && StretchAt(hist, p, cursor, w)
  {
    var log := hist[pruned..];
    LogPastCursor(hist, pruned, start, cursor);
    assert Head(log) == Head(hist);
    if cursor < Head(log) {
      NextStretch(Head(log), log, hist, Position(hist, start, cursor), cursor);
    }
  }

  lemma FlatSnoc(vs: seq<seq<Op>>, v: seq<Op>)
    ensures Flat(vs + [v]) == Flat(vs) + v
  {
    assert (vs + [v])[..|vs|] == vs;
  }

  /** A client that would not get a snapshot has nothing pruned to miss. */
  lemma UnprunedUnlessFar(hist: seq<LogRow>, pruned: nat, cursor: int)
    requires Ordered(hist) && pruned < |hist| && !WantsSnapshot(hist[pruned..], cursor)
    ensures pruned <= Upto(hist, cursor)
  {
    assert hist[pruned..][0] == hist[pruned];
    UptoSplits(hist, cursor);
    assert pruned > 0 ==> hist[pruned - 1].seqno < hist[pruned].seqno;
  }

  // ---------------------------------------------------------------------
  // What following means for the database
  // ---------------------------------------------------------------------

  /** In windows only, from a replica at its first `start` ops, if no delete of
      the stretch is blind: it trails the server as of its cursor if no window
      resurrects a key; and one that was the server is the server again at every
      window boundary exactly when no window loses a tombstone. */
  lemma {:induction false} FollowingTracksExactly(ops: seq<Op>, start: nat, n: nat, local: Db, vs: seq<seq<Op>>)
    requires start <= n <= |ops| && Flat(vs) == ops[start..n]
    requires NoBlindOps(Replay(EMPTY_DB, ops[..start]), Flat(vs))
    ensures var was := Replay(EMPTY_DB, ops[..start]);
            && (Trails(local, ops, start) && NoWindowResurrects(local, was, vs) ==>
                Trails(ApplyWindows(local, vs), ops, n))
            && (TracksReplay(was, vs) <==> NoWindowLoses(was, vs))
            && (NoWindowLoses(was, vs) ==> ApplyWindows(was, vs) == Replay(EMPTY_DB, ops[..n]))
  {
    var was := Replay(EMPTY_DB, ops[..start]);
    if Trails(local, ops, start) && NoWindowResurrects(local, was, vs) {
      WindowsTrail(local, ops, start, vs, n);
    }
    assert Disjoint(was) by { ReplayDisjoint(EMPTY_DB, ops[..start]); }
    WindowsTrackReplayExactly(was, vs);
    assert Replay(was, Flat(vs)) == Replay(EMPTY_DB, ops[..n]) by { ReplayOn(ops, start, n); }
  }

  /** A snapshot taken on the way: what the client held at its first `reached`
      ops, what it was served, and where: rows of the first `at` ops, tombstones
      of the first `taken`, the replay from `start`. */
  datatype Shot = Shot(held: Db, reached: nat, tables: seq<TableData>, tombs: seq<Tombstone>,
                       start: nat, at: nat, taken: nat)
  {
    ghost function Installed(): Db { Install(held, tables, tombs) }
  }

  ghost predicate ShotOk(ops: seq<Op>, shot: Shot) {
    && shot.start <= shot.at <= shot.taken <= |ops| && DistinctTables(shot.tables)
    && (forall k :: SnapRow(shot.tables, k) == Find(Replay(EMPTY_DB, ops[..shot.at]).rows, k))
    && TombsOf(shot.tombs) == Replay(EMPTY_DB, ops[..shot.taken]).tombs
  }

  lemma PushKeepsShot(ops: seq<Op>, more: seq<Op>, shot: Shot)
    requires ShotOk(ops, shot)
    ensures ShotOk(ops + more, shot)
  {
    assert (ops + more)[..shot.at] == ops[..shot.at] && (ops + more)[..shot.taken] == ops[..shot.taken];
  }

  /** After a snapshot, once the windows have reached the position its tombstones
      show: the client is the server as of its cursor exactly when every deleted
      key arrives. */
  lemma {:induction false} ShotTracksExactly(ops: seq<Op>, shot: Shot, n: nat, vs: seq<seq<Op>>)
    requires ShotOk(ops, shot) && shot.taken <= n <= |ops| && Flat(vs) == ops[shot.start..n]
    requires ServerHeld(shot.held, ops[..n]) && NoBlindOps(Replay(EMPTY_DB, ops[..shot.start]), Flat(vs))
    ensures var installed, server := shot.Installed(), Replay(EMPTY_DB, ops[..n]);
            ApplyWindows(installed, vs) == server <==> AllArrive(installed, server, k => Winners(k, vs))
  {
    var now := ops[..n];
    assert now[..shot.start] == ops[..shot.start] && now[shot.start..] == ops[shot.start..n];
    ShotAlready(ops, shot, n);
    assert RowsReadBetween(shot.tables, now, shot.start, shot.taken) by { ShotRows(now, shot); }
    TornWindowedBootstrap(now, shot.held, shot.start, shot.taken, vs, shot.tables, shot.tombs);
  }

  lemma ShotAlready(ops: seq<Op>, shot: Shot, n: nat)
    requires ShotOk(ops, shot) && shot.taken <= n <= |ops|
    ensures ShotOk(ops[..n], shot)
  {
    assert ops[..n][..shot.at] == ops[..shot.at] && ops[..n][..shot.taken] == ops[..shot.taken];
  }

  lemma ShotRows(ops: seq<Op>, shot: Shot)
    requires ShotOk(ops, shot)
    ensures RowsReadBetween(shot.tables, ops, shot.start, shot.taken)
  {
    forall k
      ensures exists r :: shot.start <= r <= shot.taken
                          && SnapRow(shot.tables, k) == Find(Replay(EMPTY_DB, ops[..r]).rows, k)
    {
      assert SnapRow(shot.tables, k) == Find(Replay(EMPTY_DB, ops[..shot.at]).rows, k);
    }
  }

  // ---------------------------------------------------------------------
  // The client among pushes
  // ---------------------------------------------------------------------

  /** How a client got where it is: from the state `origin` after its first
      `first` ops, by windows `led`, and by a snapshot and windows `vs` from
      there, if it took one. */
  datatype Path = Path(first: nat, origin: Db, led: seq<seq<Op>>, shot: Option<Shot>, vs: seq<seq<Op>>) {
    function Start(): nat { if shot.Some? then shot.value.start else first }
    ghost function Base(): Db { if shot.Some? then shot.value.Installed() else origin }
    function Windows(): seq<seq<Op>> { if shot.Some? then vs else led }

    /** ... once a snapshot came. */
    ghost function Onto(shot: Shot): (p: Path)
      ensures p.Start() == shot.start && p.Base() == shot.Installed() && p.Windows() == []
      ensures p.first == first && p.origin == origin
    {
      this.(shot := Some(shot), vs := [])
    }

    /** ... once a pull returned `v`. */
    ghost function After(v: seq<Op>): (p: Path)
      ensures p.Start() == Start() && p.Base() == Base() && p.Windows() == With(Windows(), v)
      ensures p.first == first && p.origin == origin
    {
      if shot.Some? then this.(vs := With(vs, v)) else this.(led := With(led, v))
    }
  }

  ghost predicate PathOk(ops: seq<Op>, path: Path) {
    path.shot.Some? ==>
      var shot := path.shot.value;
      && ShotOk(ops, shot) && shot.held == ApplyWindows(path.origin, path.led)
      && path.first <= shot.reached <= shot.taken && Flat(path.led) == ops[path.first..shot.reached]
  }

  /** Where a path that reached the first `n` ops ends. In windows only, if no
      delete of the stretch was blind: trailing the server if no window
      resurrected a key, and at the server, from the server, if no window lost a
      tombstone. After a snapshot, once past what its tombstones show: at the
      server exactly when every deleted key arrives. */
  ghost predicate PathEnd(ops: seq<Op>, path: Path, n: nat, db: Db)
    requires path.first <= |ops| && path.Start() <= n <= |ops|
  {
    var was := Replay(EMPTY_DB, ops[..path.first]);
    && (path.shot.None? && NoBlindOps(was, Flat(path.led)) ==>
          && (Trails(path.origin, ops, path.first) && NoWindowResurrects(path.origin, was, path.led) ==>
              Trails(db, ops, n))
          && (path.origin == was && NoWindowLoses(was, path.led) ==> db == Replay(EMPTY_DB, ops[..n])))
    && (path.shot.Some? && path.shot.value.taken <= n && ServerHeld(path.shot.value.held, ops[..n])
        && NoBlindOps(Replay(EMPTY_DB, ops[..path.Start()]), Flat(path.vs)) ==>
          (db == Replay(EMPTY_DB, ops[..n]) <==>
           AllArrive(path.shot.value.Installed(), Replay(EMPTY_DB, ops[..n]), k => Winners(k, path.vs))))
  }

  lemma PathEnds(ops: seq<Op>, path: Path, n: nat, db: Db)
    requires PathOk(ops, path) && path.first <= |ops| && path.Start() <= n <= |ops|
    requires Flat(path.Windows()) == ops[path.Start()..n] && db == ApplyWindows(path.Base(), path.Windows())
    ensures PathEnd(ops, path, n, db)
  {
    if path.shot.None? {
      if NoBlindOps(Replay(EMPTY_DB, ops[..path.first]), Flat(path.led)) {
        FollowingTracksExactly(ops, path.first, n, path.origin, path.led);
      }
    } else {
      var shot := path.shot.value;
      if shot.taken <= n && ServerHeld(shot.held, ops[..n])
         && NoBlindOps(Replay(EMPTY_DB, ops[..shot.start]), Flat(path.vs)) {
        ShotTracksExactly(ops, shot, n, path.vs);
      }
    }
  }

  /** What was held at the snapshot is what the server held, if the windows
      before it were good. */
  lemma {:induction false} HeldAtShot(ops: seq<Op>, path: Path, n: nat)
    requires PathOk(ops, path) && path.shot.Some? && path.first <= |ops| && path.shot.value.taken <= n <= |ops|
    requires Trails(path.origin, ops, path.first)
    requires var was := Replay(EMPTY_DB, ops[..path.first]);
             NoBlindOps(was, Flat(path.led)) && NoWindowResurrects(path.origin, was, path.led)
    ensures ServerHeld(path.shot.value.held, ops[..n])
  {
    HeldAfterWindows(ops, path.first, path.shot.value.reached, path.origin, path.led, n);
  }

  lemma {:induction false} HeldAfterWindows(ops: seq<Op>, first: nat, reached: nat, origin: Db, led: seq<seq<Op>>,
                                            n: nat)
    requires first <= reached <= n <= |ops| && Flat(led) == ops[first..reached]
    requires Trails(origin, ops, first)
    requires var was := Replay(EMPTY_DB, ops[..first]);
             NoBlindOps(was, Flat(led)) && NoWindowResurrects(origin, was, led)
    ensures ServerHeld(ApplyWindows(origin, led), ops[..n])
  {
    var held := ApplyWindows(origin, led);
    assert Trails(held, ops, reached) by { WindowsTrail(origin, ops, first, led, reached); }
    TrailsWithin(held, ops, reached, n);
  }

  lemma TrailsWithin(held: Db, ops: seq<Op>, reached: nat, n: nat)
    requires reached <= n <= |ops| && Trails(held, ops, reached)
    ensures ServerHeld(held, ops[..n])
  {
    assert ops[..n][..reached] == ops[..reached];
    HeldStaysHeld(held, ops[..n], reached);
  }

  /** A client that went through `vs` from `base` at `start`. With its snapshot
      spent it misses nothing pruned; before, it may still get one. */
  ghost predicate Stands(hist: seq<LogRow>, pruned: nat, cursor: int, db: Db, spent: bool,
                        start: nat, base: Db, vs: seq<seq<Op>>)
  {
    && Ordered(hist) && pruned < |hist| && cursor <= Head(hist) && start <= |hist|
    && Followed(hist, start, cursor, vs) && db == ApplyWindows(base, vs)
    && (if spent then NothingUnsentPruned(hist, pruned, start, cursor) else start <= Upto(hist, cursor))
  }

  lemma PushKeepsStand(hist: seq<LogRow>, more: seq<LogRow>, pruned: nat, cursor: int, db: Db, spent: bool,
                       start: nat, base: Db, vs: seq<seq<Op>>)
    requires Stands(hist, pruned, cursor, db, spent, start, base, vs) && Ordered(hist + more)
    ensures Stands(hist + more, pruned, cursor, db, spent, start, base, vs)
  {
    PushKeepsFollowed(hist, more, start, cursor, vs);
    HeadOnlyGrows(hist, more);
  }

  lemma EmptyKeepsStand(hist: seq<LogRow>, pruned: nat, cursor: int, db: Db, spent: bool,
                        start: nat, base: Db, vs: seq<seq<Op>>)
    requires Stands(hist, pruned, cursor, db, spent, start, base, vs) && Head(hist) <= cursor
    ensures Stands(hist, pruned, Head(hist), ApplyWindow(db, []), spent, start, base, vs)
  {
    EmptyKeepsFollowed(hist, start, cursor, vs);
    WindowOfNothing(db);
  }

  lemma WindowKeepsStand(hist: seq<LogRow>, pruned: nat, cursor: int, db: Db, spent: bool,
                         start: nat, base: Db, vs: seq<seq<Op>>, p: nat, w: Window)
    requires Stands(hist, pruned, cursor, db, spent, start, base, vs) && p == Position(hist, start, cursor)
    requires pruned <= p && p + |w.events| <= |hist| && StretchAt(hist, p, cursor, w)
    ensures Stands(hist, pruned, w.cursor, ApplyWindow(db, w.events), spent, start, base, vs + [w.events])
  {
    WindowKeepsFollowed(hist, start, p, cursor, w, vs);
    WindowsSnoc(base, vs, w.events);
  }

  /** Where an answered pull leads. */
  lemma AnswerKeepsStand(hist: seq<LogRow>, pruned: nat, cursor: int, db: Db, spent: bool,
                         start: nat, base: Db, vs: seq<seq<Op>>)
    requires Stands(hist, pruned, cursor, db, spent, start, base, vs)
    requires spent || !WantsSnapshot(hist[pruned..], cursor)
    ensures Head(hist[pruned..]) == Head(hist)
    ensures var w := PullSince(Head(hist), hist[pruned..], cursor);
            Stands(hist, pruned, w.cursor, ApplyWindow(db, w.events), spent, start, base, With(vs, w.events))
  {
    if !spent { UnprunedUnlessFar(hist, pruned, cursor); }
    PullContinues(hist, pruned, start, cursor);
    var w := PullSince(Head(hist), hist[pruned..], cursor);
    if w.events == [] {
      EmptyKeepsStand(hist, pruned, cursor, db, spent, start, base, vs);
    } else {
      WindowKeepsStand(hist, pruned, cursor, db, spent, start, base, vs, Position(hist, start, cursor), w);
    }
  }

  /** The windows once a pull returned `v`; an empty one is not counted. */
  function With(vs: seq<seq<Op>>, v: seq<Op>): seq<seq<Op>> {
    if v == [] then vs else vs + [v]
  }

  /** What the client remembers of its path is true of the history. */
  ghost predicate Traced(hist: seq<LogRow>, spent: bool, path: Path)
  {
    path.first <= |hist| && PathOk(Ops(hist), path) && (path.shot.Some? ==> spent)
  }

  lemma PushKeepsTrace(hist: seq<LogRow>, more: seq<LogRow>, spent: bool, path: Path)
    requires Traced(hist, spent, path)
    ensures Traced(hist + more, spent, path)
  {
    var ops, pushed := Ops(hist), Ops(more);
    assert Ops(hist + more) == ops + pushed;
    PushKeepsPathOk(ops, pushed, path);
  }

  lemma PushKeepsPathOk(ops: seq<Op>, more: seq<Op>, path: Path)
    requires path.first <= |ops| && PathOk(ops, path)
    ensures PathOk(ops + more, path)
  {
    if path.shot.Some? {
      var shot := path.shot.value;
      SliceOfPrefix(ops, more, path.first, shot.reached);
      PushKeepsShot(ops, more, shot);
    }
  }

  lemma AnswerKeepsTrace(hist: seq<LogRow>, spent: bool, path: Path, v: seq<Op>)
    requires Traced(hist, spent, path)
    ensures Traced(hist, spent, path.After(v))
  {
  }

  ghost predicate OnPath(hist: seq<LogRow>, pruned: nat, cursor: int, db: Db, spent: bool, path: Path) {
    && Stands(hist, pruned, cursor, db, spent, path.Start(), path.Base(), path.Windows())
    && Traced(hist, spent, path)
  }

  /** The snapshot served to a client that holds `held`. */
  ghost function ShotOf(hist: seq<LogRow>, pruned: nat, held: Db, reached: nat, gen: Generation,
                        tables: seq<TableData>, tombs: seq<Tombstone>): Shot
  {
    Shot(held, reached, tables, tombs, ServedFrom(hist, pruned, gen.seqno), gen.at, |hist|)
  }

  lemma ShotKeepsPath(hist: seq<LogRow>, pruned: nat, cursor: int, held: Db, path: Path, gen: Generation, now: int,
                      shot: Shot)
    requires OnPath(hist, pruned, cursor, held, false, path)
    requires pruned <= gen.at && GenerationOk(hist, now, gen)
    requires shot == ShotOf(hist, pruned, held, Position(hist, path.first, cursor), gen, shot.tables, shot.tombs)
    requires ShotOk(Ops(hist), shot)
    ensures OnPath(hist, pruned, gen.seqno, shot.Installed(), true, path.Onto(shot))
  {
    ShotKeepsTrace(hist, pruned, cursor, path, shot);
    GenerationWithin(hist, now, gen);
    StartsAnew(hist, pruned, gen.seqno, shot.start, shot.Installed());
  }

  lemma ShotKeepsTrace(hist: seq<LogRow>, pruned: nat, cursor: int, path: Path, shot: Shot)
    requires OnPath(hist, pruned, cursor, shot.held, false, path)
    requires ShotOk(Ops(hist), shot) && shot.reached == Position(hist, path.first, cursor) && shot.taken == |hist|
    ensures Traced(hist, true, path.Onto(shot))
  {
    OpsSlice(hist, path.first, shot.reached);
  }

  lemma OpsSlice(hist: seq<LogRow>, a: nat, b: nat)
    requires a <= b <= |hist|
    ensures Ops(hist[a..b]) == Ops(hist)[a..b]
  {
  }

  lemma GenerationWithin(hist: seq<LogRow>, now: int, gen: Generation)
    requires Ordered(hist) && |hist| > 0 && GenerationOk(hist, now, gen)
    ensures gen.seqno <= Head(hist)
  {
    if gen.seqno > 0 {
      HeadIsLast(hist, gen.at - 1);
    } else {
      assert hist[0].seqno >= 1;
    }
  }

  lemma StartsAnew(hist: seq<LogRow>, pruned: nat, served: int, start: nat, base: Db)
    requires Ordered(hist) && pruned < |hist| && served <= Head(hist) && start == ServedFrom(hist, pruned, served)
    ensures Stands(hist, pruned, served, base, true, start, base, [])
  {
    StartsFollowed(hist, pruned, served);
  }

  lemma HeadIsLast(hist: seq<LogRow>, j: nat)
    requires Ordered(hist) && j < |hist|
    ensures hist[j].seqno <= Head(hist)
  {
  }

  lemma StartsFollowed(hist: seq<LogRow>, pruned: nat, served: int)
    requires pruned <= |hist|
    ensures var start := ServedFrom(hist, pruned, served);
            start <= |hist| && Followed(hist, start, served, []) && NothingUnsentPruned(hist, pruned, start, served)
  {
    var start := ServedFrom(hist, pruned, served);
    assert Position(hist, start, served) == start && hist[start..start] == [];
  }

  lemma ShotIsOk(hist: seq<LogRow>, pruned: nat, held: Db, reached: nat, gen: Generation, now: int,
                 tables: seq<TableData>, tombs: seq<Tombstone>)
    requires Ordered(hist) && pruned <= gen.at <= |hist| && GenerationOk(hist, now, gen)
    requires DistinctTables(tables) && (forall k :: SnapRow(tables, k) == Find(gen.rows, k))
    requires TombsOf(tombs) == Replay(EMPTY_DB, Ops(hist)).tombs
    ensures ShotOk(Ops(hist), ShotOf(hist, pruned, held, reached, gen, tables, tombs))
  {
    var ops := Ops(hist);
    ReplayAfterSnapshot(hist, pruned, gen, now);
    assert ops[..|ops|] == ops;
  }

  /** Server and client on a path. */
  ghost predicate Course(server: Backend, client: Client, spent: bool, path: Path)
    reads server, client
  {
    && server.Valid() && server.careful && server.log != []
    && OnPath(server.hist, server.pruned, client.cursor, client.db, spent, path)
  }

  /** Somebody pushes. */
  method PushMeanwhile(server: Backend, client: Client, ops: seq<Op>, ghost spent: bool, ghost path: Path)
    requires Course(server, client, spent, path)
    requires (forall t | t in server.tables :: t in client.sinks) && forall op | op in ops :: op.table in server.tables
    modifies server
    ensures Course(server, client, spent, path)
    ensures Ops(server.hist) == Ops(old(server.hist)) + Accepted(ops)
  {
    ghost var hist, rows := server.hist, NewRows(Accepted(ops), server.nextSeq, server.now);
    AppendedOps(hist, Accepted(ops), server.nextSeq, server.now);
    var cursor := server.Push(ops, None);
    LogFacts(server, client.sinks);
    PushKeepsStand(hist, rows, server.pruned, client.cursor, client.db, spent, path.Start(), path.Base(),
                   path.Windows());
    PushKeepsTrace(hist, rows, spent, path);
  }

  /** The client's pull is answered by a window. */
  method Answer(server: Backend, session: Connection, client: Client, ghost path: Path) returns (ghost next: Path)
    requires Course(server, client, session.snapshotted, path) && client.columns > 0
    requires session.snapshotted || !WantsSnapshot(server.log, client.cursor)
    requires forall t | t in server.tables :: t in client.sinks
    modifies server, session, client
    ensures Course(server, client, session.snapshotted, next) && server.hist == old(server.hist)
    ensures session.snapshotted == old(session.snapshotted)
    ensures next.first == path.first && next.origin == path.origin
  {
    LogFacts(server, client.sinks);
    server.LogOrdered();
    ghost var hist, pruned, spent := server.hist, server.pruned, session.snapshotted;
    ghost var w := PullSince(Head(hist), hist[pruned..], client.cursor);
    AnswerKeepsStand(hist, pruned, client.cursor, client.db, spent, path.Start(), path.Base(), path.Windows());
    AnswerKeepsTrace(hist, spent, path, w.events);
    next := path.After(w.events);
    var more := PullOnce(server, session, client);
    assert OnPath(hist, pruned, client.cursor, client.db, spent, next);
  }

  /** ... or by the connection's snapshot. */
  method AnswerInFull(server: Backend, session: Connection, client: Client, ghost path: Path) returns (ghost next: Path)
    requires Course(server, client, session.snapshotted, path) && client.columns > 0
    requires !session.snapshotted && WantsSnapshot(server.log, client.cursor)
    requires forall t | t in server.tables :: t in client.sinks
    modifies server, session, client
    ensures Course(server, client, session.snapshotted, next) && server.hist == old(server.hist)
    ensures session.snapshotted && next.first == path.first && next.origin == path.origin
  {
    ghost var held, cursor := client.db, client.cursor;
    LogFacts(server, client.sinks);
    var tables, tombs := TakeSnapshot(server, session, client);
    ghost var reached := Position(server.hist, path.first, cursor);
    ghost var shot := ShotOf(server.hist, server.pruned, held, reached, server.gen, tables, tombs);
    ShotIsOk(server.hist, server.pruned, held, reached, server.gen, server.now, tables, tombs);
    ShotKeepsPath(server.hist, server.pruned, cursor, held, path, server.gen, server.now, shot);
    next := path.Onto(shot);
  }

  /** One round: somebody pushes, then the client's pull is answered. */
  method Round(server: Backend, session: Connection, client: Client, ops: seq<Op>, ghost path: Path)
    returns (ghost next: Path)
    requires Course(server, client, session.snapshotted, path) && client.columns > 0
    requires (forall t | t in server.tables :: t in client.sinks) && forall op | op in ops :: op.table in server.tables
    modifies server, session, client
    ensures Course(server, client, session.snapshotted, next)
    ensures next.first == path.first && next.origin == path.origin
    ensures Ops(server.hist) == Ops(old(server.hist)) + Accepted(ops)
  {
    PushMeanwhile(server, client, ops, session.snapshotted, path);
    if WantsSnapshot(server.log, client.cursor) && !session.snapshotted {
      next := AnswerInFull(server, session, client, path);
    } else {
      next := Answer(server, session, client, path);
    }
  }

  method FollowRounds(server: Backend, session: Connection, client: Client, pushes: seq<seq<Op>>, ghost path: Path)
    returns (ghost next: Path)
    requires Course(server, client, session.snapshotted, path) && client.columns > 0
    requires forall t | t in server.tables :: t in client.sinks
    requires forall i | 0 <= i < |pushes| :: forall op | op in pushes[i] :: op.table in server.tables
    modifies server, session, client
    ensures Course(server, client, session.snapshotted, next)
    ensures next.first == path.first && next.origin == path.origin
    ensures Ops(server.hist) == Ops(old(server.hist)) + AllAccepted(pushes)
    decreases |pushes|
  {
    next := path;
    if |pushes| > 0 {
      OneMorePush(Ops(server.hist), pushes);
      next := FollowRounds(server, session, client, pushes[..|pushes| - 1], path);
      next := Round(server, session, client, pushes[|pushes| - 1], next);
    }
  }

  /** Where the windows of a client start: behind the pruned floor with its
      snapshot spent, it is not told of the rows in between. */
  function FirstOf(hist: seq<LogRow>, pruned: nat, cursor: int, spent: bool): nat {
    if spent then Max(pruned, Upto(hist, cursor)) else Upto(hist, cursor)
  }

  /** Any number of pushes by anyone, with the client pulling in between, from
      any cursor of this server, its snapshot spent or not: where it then is. */
  method FollowAmidPushes(server: Backend, session: Connection, client: Client, pushes: seq<seq<Op>>)
    returns (ghost path: Path)
    requires server.Valid() && server.careful && server.log != [] && client.columns > 0
    requires forall t | t in server.tables :: t in client.sinks
    requires forall i | 0 <= i < |pushes| :: forall op | op in pushes[i] :: op.table in server.tables
    requires client.cursor <= Head(server.log)
    modifies server, session, client
    ensures server.Valid() && Ops(server.hist) == Ops(old(server.hist)) + AllAccepted(pushes)
    ensures path.first == FirstOf(old(server.hist), old(server.pruned), old(client.cursor), old(session.snapshotted))
    ensures path.origin == old(client.db)
    ensures client.db == ApplyWindows(path.Base(), path.Windows())
    ensures Followed(server.hist, path.Start(), client.cursor, path.Windows()) && PathOk(Ops(server.hist), path)
    ensures path.first <= |server.hist| && path.Start() <= |server.hist|
    ensures PathEnd(Ops(server.hist), path, Position(server.hist, path.Start(), client.cursor), client.db)
  {
    path := Path(FirstOf(server.hist, server.pruned, client.cursor, session.snapshotted), client.db, [], None, []);
    Starts(server, session, client, path);
    path := FollowRounds(server, session, client, pushes, path);
    CourseEnds(server.hist, server.pruned, client.cursor, client.db, session.snapshotted, path);
  }

  lemma Starts(server: Backend, session: Connection, client: Client, path: Path)
    requires server.Valid() && server.careful && server.log != [] && client.cursor <= Head(server.log)
    requires forall t | t in server.tables :: t in client.sinks
    requires path.first == FirstOf(server.hist, server.pruned, client.cursor, session.snapshotted)
    requires path == Path(path.first, client.db, [], None, [])
    ensures Course(server, client, session.snapshotted, path)
  {
    LogFacts(server, client.sinks);
    StartsAtCursor(server.hist, server.pruned, client.cursor, client.db, session.snapshotted);
    assert Traced(server.hist, session.snapshotted, path);
  }

  lemma StartsAtCursor(hist: seq<LogRow>, pruned: nat, cursor: int, db: Db, spent: bool)
    requires Ordered(hist) && pruned < |hist| && cursor <= Head(hist[pruned..])
    ensures Stands(hist, pruned, cursor, db, spent, FirstOf(hist, pruned, cursor, spent), db, [])
  {
    var n := FirstOf(hist, pruned, cursor, spent);
    assert Head(hist[pruned..]) == Head(hist) && hist[n..n] == [];
    assert Position(hist, n, cursor) == n;
  }

  lemma CourseEnds(hist: seq<LogRow>, pruned: nat, cursor: int, db: Db, spent: bool, path: Path)
    requires OnPath(hist, pruned, cursor, db, spent, path)
    ensures path.first <= |hist| && path.Start() <= |hist| && Followed(hist, path.Start(), cursor, path.Windows())
    ensures PathOk(Ops(hist), path) && db == ApplyWindows(path.Base(), path.Windows())
    ensures PathEnd(Ops(hist), path, Position(hist, path.Start(), cursor), db)
  {
    OpsSlice(hist, path.Start(), Position(hist, path.Start(), cursor));
    PathEnds(Ops(hist), path, Position(hist, path.Start(), cursor), db);
  }

  lemma OneMorePush(first: seq<Op>, pushes: seq<seq<Op>>)
    requires |pushes| > 0
    ensures (first + AllAccepted(pushes[..|pushes| - 1])) + Accepted(pushes[|pushes| - 1]) ==
            first + AllAccepted(pushes)
  {
  }

  function AllAccepted(pushes: seq<seq<Op>>): seq<Op> {
    if |pushes| == 0 then [] else AllAccepted(pushes[..|pushes| - 1]) + Accepted(pushes[|pushes| - 1])
  }
}
