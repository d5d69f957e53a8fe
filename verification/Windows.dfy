/**
 What a client does with a window of events and with a snapshot, as functions
 on databases. Replica.dfy is the client object that computes them.

 The client does not replay a window op by op: it collapses the window to one
 write per key, the newest, and executes only that.
 */
module Windows {
  import opened Protocol
  import opened Register
  import opened Store
  import opened Bootstrap

  function OpKeys(ops: seq<Op>): set<Key> {
    set op | op in ops && Applyable(op) :: Decoded(op).value.0
  }

  /** One key after a window: a single step, by the window's newest write. */
  function WindowCell(c: Cell, k: Key, ops: seq<Op>): Cell {
    var w := Winner(WritesOn(k, ops));
    if w.Some? then Step(c, w.value) else c
  }

  function ApplyWindow(db: Db, ops: seq<Op>): Db {
    var keys := db.rows.Keys + db.tombs.Keys + OpKeys(ops);
    Db(map k | k in keys && WindowCell(CellOf(db, k), k, ops).row.Some?
         :: WindowCell(CellOf(db, k), k, ops).row.value,
       map k | k in keys && WindowCell(CellOf(db, k), k, ops).tomb.Some?
         :: WindowCell(CellOf(db, k), k, ops).tomb.value)
  }

  lemma {:induction false} NoWritesOffKeys(k: Key, ops: seq<Op>)
    requires k !in OpKeys(ops)
    ensures WritesOn(k, ops) == []
  {
    if |ops| == 0 {
    } else {
      var init, op := ops[..|ops| - 1], ops[|ops| - 1];
      assert op in ops;
      assert forall o | o in init :: o in ops;
      assert OpKeys(init) <= OpKeys(ops);
      NoWritesOffKeys(k, init);
    }
  }

  lemma ApplyWindowPerKey(db: Db, ops: seq<Op>, k: Key)
    ensures CellOf(ApplyWindow(db, ops), k) == WindowCell(CellOf(db, k), k, ops)
  {
    if k !in OpKeys(ops) { NoWritesOffKeys(k, ops); }
  }

  /** A run of windows, oldest first. */
  function ApplyWindows(db: Db, vs: seq<seq<Op>>): Db {
    if |vs| == 0 then db else ApplyWindow(ApplyWindows(db, vs[..|vs| - 1]), vs[|vs| - 1])
  }

  function Flat(vs: seq<seq<Op>>): seq<Op> {
    if |vs| == 0 then [] else Flat(vs[..|vs| - 1]) + vs[|vs| - 1]
  }

  /** The writes the client actually executes on a key: one per window that
      touches it. */
  function Winners(k: Key, vs: seq<seq<Op>>): seq<Write> {
    if |vs| == 0 then []
    else
      var w := Winner(WritesOn(k, vs[|vs| - 1]));
      Winners(k, vs[..|vs| - 1]) + if w.Some? then [w.value] else []
  }

  lemma {:induction false} ApplyWindowsPerKey(db: Db, vs: seq<seq<Op>>, k: Key)
    ensures CellOf(ApplyWindows(db, vs), k) == Run(CellOf(db, k), Winners(k, vs))
  {
    if |vs| == 0 {
    } else {
      var init, v := vs[..|vs| - 1], vs[|vs| - 1];
      ApplyWindowsPerKey(db, init, k);
      ApplyWindowPerKey(ApplyWindows(db, init), v, k);
      var w := Winner(WritesOn(k, v));
      if w.Some? {
        assert (Winners(k, init) + [w.value])[..|Winners(k, init)|] == Winners(k, init);
      } else {
        assert Winners(k, vs) == Winners(k, init);
      }
    }
  }

  /** The executed writes decide like the whole stretch they stand for. */
  lemma {:induction false} WinnersStandForOps(k: Key, vs: seq<seq<Op>>)
    ensures StandsFor(Winners(k, vs), WritesOn(k, Flat(vs)))
  {
    if |vs| == 0 {
    } else {
      var init, v := vs[..|vs| - 1], vs[|vs| - 1];
      WinnersStandForOps(k, init);
      WritesOnConcat(k, Flat(init), v);
      WinnerConcat(WritesOn(k, Flat(init)), WritesOn(k, v));
      var ws := WritesOn(k, v);
      if Winner(ws).Some? {
        var w, prev := Winner(ws).value, Winners(k, init);
        assert (prev + [w])[..|prev + [w]| - 1] == prev;
        assert Winner(prev + [w]) == Newer(Winner(prev), w);
        assert Winners(k, vs) == prev + [w];
        assert Winner(WritesOn(k, Flat(vs))) == Newer(Winner(WritesOn(k, Flat(init))), w);
        WinnerIsFirstNewest(ws);
      } else {
        assert Winners(k, vs) == Winners(k, init);
      }
    }
  }

  // ---------------------------------------------------------------------
  // Collapse against one-at-a-time replay
  // ---------------------------------------------------------------------

  /** The window's newest write is a delete newer than the key's clock, and the
      key is not live before the window. */
  predicate LosesTombstone(c: Cell, k: Key, ops: seq<Op>) {
    var w := Winner(WritesOn(k, ops));
    w.Some? && Blind(c, w.value)
  }

  /** Collapsing a window agrees with replaying it op by op exactly when no
      key was created and deleted inside it; where they differ, the live row
      (none) still agrees, and what is missing is the tombstone. */
  lemma CollapseIsReplayExactly(c: Cell, k: Key, ops: seq<Op>)
    requires Single(c) && NoBlind(c, WritesOn(k, ops))
    ensures WindowCell(c, k, ops) == Run(c, WritesOn(k, ops)) <==> !LosesTombstone(c, k, ops)
    ensures WindowCell(c, k, ops).row == Run(c, WritesOn(k, ops)).row
    ensures LosesTombstone(c, k, ops) ==> Run(c, WritesOn(k, ops)) ==
                                            Cell(None, Some(Winner(WritesOn(k, ops)).value.at))
  {
    NewestWriteDecides(c, WritesOn(k, ops));
  }

  ghost predicate LosesSomeTombstone(db: Db, ops: seq<Op>) {
    exists k :: LosesTombstone(CellOf(db, k), k, ops)
  }

  /** The same for a whole database and one window. */
  lemma {:induction false} WindowIsReplayExactly(db: Db, ops: seq<Op>)
    requires Disjoint(db) && NoBlindOps(db, ops)
    ensures ApplyWindow(db, ops) == Replay(db, ops) <==> !LosesSomeTombstone(db, ops)
    ensures ApplyWindow(db, ops).rows == Replay(db, ops).rows
  {
    var a, b := ApplyWindow(db, ops), Replay(db, ops);
    forall k
      ensures CellOf(a, k) == CellOf(b, k) <==> !LosesTombstone(CellOf(db, k), k, ops)
      ensures CellOf(a, k).row == CellOf(b, k).row
    {
      assert Single(CellOf(db, k));
      NoBlindPerKey(db, ops, k);
      ApplyWindowPerKey(db, ops, k);
      ReplayPerKey(db, ops, k);
      CollapseIsReplayExactly(CellOf(db, k), k, ops);
    }
    SameRows(a, b);
    if !LosesSomeTombstone(db, ops) {
      SameCells(a, b);
    }
  }

  lemma SameRows(a: Db, b: Db)
    requires forall k :: CellOf(a, k).row == CellOf(b, k).row
    ensures a.rows == b.rows
  {
    forall k
      ensures k in a.rows <==> k in b.rows
      ensures k in a.rows ==> a.rows[k] == b.rows[k]
    {
      assert CellOf(a, k).row == CellOf(b, k).row;
    }
    assert a.rows == b.rows;
  }

  /** The windows agree with the op-by-op replay at every window boundary. */
  ghost predicate TracksReplay(db: Db, vs: seq<seq<Op>>) {
    |vs| == 0 || (TracksReplay(db, vs[..|vs| - 1]) && ApplyWindows(db, vs) == Replay(db, Flat(vs)))
  }

  ghost predicate NoWindowLoses(db: Db, vs: seq<seq<Op>>) {
    |vs| == 0 || (&& NoWindowLoses(db, vs[..|vs| - 1])
                  && !LosesSomeTombstone(Replay(db, Flat(vs[..|vs| - 1])), vs[|vs| - 1]))
  }

  /** A run of windows tracks the server at every window boundary exactly when
      no window creates and deletes a key the server did not hold before it. */
  lemma {:induction false} WindowsTrackReplayExactly(db: Db, vs: seq<seq<Op>>)
    requires Disjoint(db) && NoBlindOps(db, Flat(vs))
    ensures TracksReplay(db, vs) <==> NoWindowLoses(db, vs)
    ensures TracksReplay(db, vs) ==> ApplyWindows(db, vs) == Replay(db, Flat(vs))
  {
    if |vs| == 0 {
    } else {
      var init, v := vs[..|vs| - 1], vs[|vs| - 1];
      NoBlindOpsConcat(db, Flat(init), v);
      WindowsTrackReplayExactly(db, init);
      ReplayConcat(db, Flat(init), v);
      ReplayDisjoint(db, Flat(init));
      WindowIsReplayExactly(Replay(db, Flat(init)), v);
    }
  }

  // ---------------------------------------------------------------------
  // From a replica that lost tombstones before
  // ---------------------------------------------------------------------

  /** The server's rows, and no tombstone newer than its own. */
  predicate ShortOf(local: Db, server: Db) {
    && local.rows == server.rows
    && forall k | k in local.tombs :: k in server.tombs && local.tombs[k] <= server.tombs[k]
  }

  predicate ShortCell(c: Cell, s: Cell) {
    c.row == s.row && (c.tomb.Some? ==> s.tomb.Some? && c.tomb.value <= s.tomb.value)
  }

  lemma ShortPerKey(a: Db, b: Db)
    ensures ShortOf(a, b) <==> forall k :: ShortCell(CellOf(a, k), CellOf(b, k))
  {
    if forall k :: ShortCell(CellOf(a, k), CellOf(b, k)) {
      forall k ensures CellOf(a, k).row == CellOf(b, k).row {
        assert ShortCell(CellOf(a, k), CellOf(b, k));
      }
      SameRows(a, b);
      forall k | k in a.tombs ensures k in b.tombs && a.tombs[k] <= b.tombs[k] {
        assert ShortCell(CellOf(a, k), CellOf(b, k));
      }
    }
  }

  lemma SameOrNot(a: Db, b: Db)
    ensures a == b <==> forall k :: CellOf(a, k) == CellOf(b, k)
  {
    if forall k :: CellOf(a, k) == CellOf(b, k) { SameCells(a, b); }
  }

  /** A stale edit the server dropped, and the replica, without the server's
      tombstone, lets in. */
  predicate Resurrects(c: Cell, s: Cell, w: Option<Write>) {
    && s.tomb.Some? && w.Some? && w.value.Put? && w.value.row.lww <= s.tomb.value
    && TombstoneAllows(w.value.row.lww, c.tomb)
  }

  /** The write brings the key level: a lost tombstone is outdated by an upsert,
      any other is not lost now. */
  predicate Levels(c: Cell, s: Cell, w: Option<Write>) {
    if c.tomb == s.tomb then w.None? || !Blind(s, w.value)
    else w.Some? && w.value.Put? && s.tomb.Some? && w.value.row.lww > s.tomb.value
  }

  lemma StepFromShort(c: Cell, s: Cell, w: Option<Write>)
    requires Single(s) && ShortCell(c, s)
    ensures var a, b := if w.Some? then Step(c, w.value) else c, Outcome(s, w);
            && (a == b <==> Levels(c, s, w))
            && (ShortCell(a, b) <==> !Resurrects(c, s, w))
            && (a.tomb == None || a.tomb == b.tomb || a.tomb == c.tomb)
  {
  }

  ghost predicate NoneResurrects(local: Db, server: Db, ops: seq<Op>) {
    forall k :: !Resurrects(CellOf(local, k), CellOf(server, k), Winner(WritesOn(k, ops)))
  }

  ghost predicate AllLevel(local: Db, server: Db, ops: seq<Op>) {
    forall k :: Levels(CellOf(local, k), CellOf(server, k), Winner(WritesOn(k, ops)))
  }

  lemma WindowOnShortKey(local: Db, server: Db, k: Key, ops: seq<Op>)
    requires Disjoint(server) && ShortOf(local, server) && NoBlindOps(server, ops)
    ensures var c, s, w := CellOf(local, k), CellOf(server, k), Winner(WritesOn(k, ops));
            var a, b := CellOf(ApplyWindow(local, ops), k), CellOf(Replay(server, ops), k);
            && (a == b <==> Levels(c, s, w))
            && (ShortCell(a, b) <==> !Resurrects(c, s, w))
            && (a.tomb == None || a.tomb == b.tomb || a.tomb == c.tomb)
  {
    var c, s, ws := CellOf(local, k), CellOf(server, k), WritesOn(k, ops);
    assert Single(s);
    assert ShortCell(c, s) by { ShortPerKey(local, server); }
    assert CellOf(ApplyWindow(local, ops), k) == WindowCell(c, k, ops) by { ApplyWindowPerKey(local, ops, k); }
    assert CellOf(Replay(server, ops), k) == Outcome(s, Winner(ws)) by {
      NoBlindPerKey(server, ops, k);
      ReplayPerKey(server, ops, k);
      NewestWriteDecides(s, ws);
    }
    StepFromShort(c, s, Winner(ws));
  }

  /** A window takes a replica with the server's rows and some of its tombstones
      to one again exactly when no key resurrects, and to the server's state
      exactly when every key levels. */
  lemma {:induction false} WindowFromShort(local: Db, server: Db, ops: seq<Op>)
    requires Disjoint(server) && ShortOf(local, server) && NoBlindOps(server, ops)
    ensures ShortOf(ApplyWindow(local, ops), Replay(server, ops)) <==> NoneResurrects(local, server, ops)
    ensures ApplyWindow(local, ops) == Replay(server, ops) <==> AllLevel(local, server, ops)
  {
    var a, b := ApplyWindow(local, ops), Replay(server, ops);
    forall k
      ensures CellOf(a, k) == CellOf(b, k) <==> Levels(CellOf(local, k), CellOf(server, k), Winner(WritesOn(k, ops)))
      ensures ShortCell(CellOf(a, k), CellOf(b, k)) <==>
              !Resurrects(CellOf(local, k), CellOf(server, k), Winner(WritesOn(k, ops)))
    {
      WindowOnShortKey(local, server, k, ops);
    }
    ShortPerKey(a, b);
    SameOrNot(a, b);
  }

  /** At every window boundary the replica has the server's rows and no
      tombstone the server lacks. */
  ghost predicate StaysShort(local: Db, server: Db, vs: seq<seq<Op>>) {
    if |vs| == 0 then ShortOf(local, server)
    else StaysShort(local, server, vs[..|vs| - 1]) && ShortOf(ApplyWindows(local, vs), Replay(server, Flat(vs)))
  }

  ghost predicate NoWindowResurrects(local: Db, server: Db, vs: seq<seq<Op>>) {
    |vs| == 0 ||
    var init := vs[..|vs| - 1];
    && NoWindowResurrects(local, server, init)
    && NoneResurrects(ApplyWindows(local, init), Replay(server, Flat(init)), vs[|vs| - 1])
  }

  /** A run of windows keeps the rows right at every boundary exactly when no
      window resurrects a key. */
  lemma {:induction false} WindowsStayShortExactly(local: Db, server: Db, vs: seq<seq<Op>>)
    requires Disjoint(server) && ShortOf(local, server) && NoBlindOps(server, Flat(vs))
    ensures StaysShort(local, server, vs) <==> NoWindowResurrects(local, server, vs)
    ensures StaysShort(local, server, vs) ==> ShortOf(ApplyWindows(local, vs), Replay(server, Flat(vs)))
  {
    if |vs| == 0 {
    } else {
      var init, v := vs[..|vs| - 1], vs[|vs| - 1];
      NoBlindOpsConcat(server, Flat(init), v);
      WindowsStayShortExactly(local, server, init);
      ReplayConcat(server, Flat(init), v);
      ReplayDisjoint(server, Flat(init));
      if StaysShort(local, server, init) {
        WindowFromShort(ApplyWindows(local, init), Replay(server, Flat(init)), v);
      }
    }
  }

  /** The concrete failure: a cold client gets create and delete in one window
      and a stale edit in the next, and the deleted row comes back. */
  lemma StaleEditResurrectsAcrossWindows(create: Op, remove: Op, edit: Op, first: Row, stale: Row, at: Ts, k: Key)
    requires create.data == Doc(first) && remove.data == Null && edit.data == Doc(stale) && remove.updatedAt == at
    requires create.table == remove.table == edit.table == k.table && first.id == remove.id == stale.id == k.id
    requires first.lww < stale.lww < at
    ensures NoBlindOps(EMPTY_DB, [create, remove, edit])
    ensures CellOf(Replay(EMPTY_DB, [create, remove, edit]), k) == Cell(None, Some(at))
    ensures CellOf(ApplyWindows(EMPTY_DB, [[create, remove], [edit]]), k) == Cell(Some(stale), None)
    ensures CellOf(ApplyWindows(EMPTY_DB, [[create, remove, edit]]), k) == EMPTY
  {
    StaleEditWrites(create, remove, edit, k);
    StaleEditCells([create], [create, remove], [edit], [create, remove, edit], first, stale, at, k);
    StaleEditHasNoBlindDelete(create, remove, edit, k);
  }

  lemma StaleEditCells(one: seq<Op>, u: seq<Op>, v: seq<Op>, all: seq<Op>, first: Row, stale: Row, at: Ts, k: Key)
    requires first.lww < stale.lww < at
    requires WritesOn(k, one) == [Put(first)] && WritesOn(k, u) == [Put(first), Del(at)]
             && WritesOn(k, v) == [Put(stale)]
    requires WritesOn(k, all) == [Put(first), Del(at), Put(stale)]
    ensures Live(CellOf(Replay(EMPTY_DB, one), k))
    ensures CellOf(Replay(EMPTY_DB, all), k) == Cell(None, Some(at))
    ensures CellOf(ApplyWindows(EMPTY_DB, [u, v]), k) == Cell(Some(stale), None)
    ensures CellOf(ApplyWindows(EMPTY_DB, [all]), k) == EMPTY
  {
    StaleEditRuns(first, stale, at);
    ReplayPerKey(EMPTY_DB, one, k);
    ReplayPerKey(EMPTY_DB, all, k);
    WinnersOfTwo(k, u, v);
    WinnersOfTwo(k, all, v);
    ApplyWindowsPerKey(EMPTY_DB, [u, v], k);
    ApplyWindowsPerKey(EMPTY_DB, [all], k);
  }

  lemma WinnersOfTwo(k: Key, u: seq<Op>, v: seq<Op>)
    requires Winner(WritesOn(k, u)).Some? && Winner(WritesOn(k, v)).Some?
    ensures Winners(k, [u]) == [Winner(WritesOn(k, u)).value]
    ensures Winners(k, [u, v]) == [Winner(WritesOn(k, u)).value, Winner(WritesOn(k, v)).value]
  {
    assert [u][..0] == [] && [u, v][..1] == [u];
  }

  lemma StaleEditWrites(create: Op, remove: Op, edit: Op, k: Key)
    requires forall op | op in [create, remove, edit] :: Decoded(op).Some? && Decoded(op).value.0 == k
    ensures WritesOn(k, [create]) == [Decoded(create).value.1]
    ensures WritesOn(k, [create, remove]) == [Decoded(create).value.1, Decoded(remove).value.1]
    ensures WritesOn(k, [create, remove, edit]) ==
            [Decoded(create).value.1, Decoded(remove).value.1, Decoded(edit).value.1]
    ensures WritesOn(k, [edit]) == [Decoded(edit).value.1]
  {
    assert create in [create, remove, edit] && remove in [create, remove, edit] && edit in [create, remove, edit];
    assert [create, remove, edit][..2] == [create, remove] && [create, remove][..1] == [create];
    assert [create][..0] == [] && [edit][..0] == [];
  }

  lemma StaleEditRuns(first: Row, stale: Row, at: Ts)
    requires first.lww < stale.lww < at
    ensures var c, d, e := Put(first), Del(at), Put(stale);
            && Run(EMPTY, [c]) == Cell(Some(first), None)
            && Run(EMPTY, [c, d]) == Cell(None, Some(at)) == Run(EMPTY, [c, d, e])
            && Run(EMPTY, [d, e]) == Cell(Some(stale), None) && Run(EMPTY, [d]) == EMPTY
            && Winner([c, d]) == Some(d) == Winner([c, d, e]) && Winner([e]) == Some(e)
  {
    var c, d, e := Put(first), Del(at), Put(stale);
    assert [c][..0] == [] && [d][..0] == [] && [e][..0] == [];
    assert [c, d][..1] == [c] && [d, e][..1] == [d] && [c, d, e][..2] == [c, d];
    assert Run(EMPTY, [c]) == Step(Run(EMPTY, []), c);
    assert Run(EMPTY, [d]) == Step(Run(EMPTY, []), d);
    assert Winner([c]) == Some(c);
  }

  lemma StaleEditHasNoBlindDelete(create: Op, remove: Op, edit: Op, k: Key)
    requires create.data.Doc? && edit.data.Doc? && remove.data.Null? && Key(remove.table, remove.id) == k
    requires Live(CellOf(Replay(EMPTY_DB, [create]), k))
    ensures NoBlindOps(EMPTY_DB, [create, remove, edit])
  {
    assert [create, remove, edit][..2] == [create, remove] && [create, remove][..1] == [create];
    assert [create][..0] == [];
    assert NoBlindOps(EMPTY_DB, [create]) by {
      assert NoBlindOps(EMPTY_DB, [create][..|[create]| - 1]);
    }
    assert NoBlindOps(EMPTY_DB, [create, remove]);
  }
}
