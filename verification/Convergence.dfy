/**
 The claims about whole databases: convergence, redelivery, overlap replay and
 snapshot bootstrap.
 */
module Convergence {
  import opened Protocol
  import opened Register
  import opened Store
  import opened Bootstrap
  import opened Windows
  import opened Snapshots

  // ---------------------------------------------------------------------
  // Convergence
  // ---------------------------------------------------------------------

  ghost predicate SameOps(a: seq<Op>, b: seq<Op>) {
    forall op :: op in a <==> op in b
  }

  /** Two writes of one key with one timestamp are the same write. */
  ghost predicate TimesNameWrites(ops: seq<Op>) {
    forall p, q | p in ops && q in ops && Applyable(p) && Applyable(q) ::
      var a, b := Decoded(p).value, Decoded(q).value;
      a.0 == b.0 && a.1.Time() == b.1.Time() ==> a.1 == b.1
  }

  /** The key's newest op lands: it is an upsert, or a delete that finds an older
      live row at one of its deliveries. */
  ghost predicate LandsOn(ops: seq<Op>, k: Key) {
    WritesOn(k, ops) == [] || NewestLands(EMPTY, WritesOn(k, ops))
  }

  ghost predicate NewestOpsLand(ops: seq<Op>) {
    forall k :: LandsOn(ops, k)
  }

  /** The key holds the outcome of its newest op. */
  predicate ShowsOn(db: Db, ops: seq<Op>, k: Key) {
    CellOf(db, k) == Outcome(EMPTY, Winner(WritesOn(k, ops)))
  }

  ghost predicate ShowsNewest(db: Db, ops: seq<Op>) {
    forall k :: ShowsOn(db, ops, k)
  }

  lemma ShowsOnExactly(ops: seq<Op>, k: Key)
    ensures ShowsOn(Replay(EMPTY_DB, ops), ops, k) <==> LandsOn(ops, k)
  {
    ReplayPerKey(EMPTY_DB, ops, k);
    if WritesOn(k, ops) != [] {
      NewestWriteDecidesExactly(EMPTY, WritesOn(k, ops));
    }
  }

  /** A replica shows each key's newest op exactly when those ops all land. */
  lemma ShowsNewestExactly(ops: seq<Op>)
    ensures ShowsNewest(Replay(EMPTY_DB, ops), ops) <==> NewestOpsLand(ops)
  {
    forall k ensures ShowsOn(Replay(EMPTY_DB, ops), ops, k) <==> LandsOn(ops, k) {
      ShowsOnExactly(ops, k);
    }
  }

  /** Two replicas that apply the same ops, in any orders and multiplicities:
      once every newest op landed on one of them, they agree in rows and
      tombstones exactly when it did on the other. */
  lemma ConvergeExactly(a: seq<Op>, b: seq<Op>)
    requires SameOps(a, b) && TimesNameWrites(a) && NewestOpsLand(a)
    ensures Replay(EMPTY_DB, a) == Replay(EMPTY_DB, b) <==> NewestOpsLand(b)
  {
    ShowsNewestExactly(a);
    ShowsNewestExactly(b);
    var p, q := Replay(EMPTY_DB, a), Replay(EMPTY_DB, b);
    forall k ensures Winner(WritesOn(k, a)) == Winner(WritesOn(k, b)) {
      SameOpsSameWinner(a, b, k);
    }
    if p == q {
      forall k ensures ShowsOn(q, b, k) {
        assert ShowsOn(p, a, k);
      }
    }
    if NewestOpsLand(b) {
      forall k ensures CellOf(p, k) == CellOf(q, k) {
        assert ShowsOn(p, a, k) && ShowsOn(q, b, k);
      }
      SameCells(p, q);
    }
  }

  /** In particular without blind deletes: the replicas end in the same state,
      per key the outcome of its newest op. */
  lemma Converge(a: seq<Op>, b: seq<Op>)
    requires SameOps(a, b) && TimesNameWrites(a)
    requires NoBlindOps(EMPTY_DB, a) && NoBlindOps(EMPTY_DB, b)
    ensures Replay(EMPTY_DB, a) == Replay(EMPTY_DB, b)
    ensures ShowsNewest(Replay(EMPTY_DB, a), a)
  {
    NoBlindShowsNewest(a);
    NoBlindShowsNewest(b);
    ShowsNewestExactly(a);
    ShowsNewestExactly(b);
    ConvergeExactly(a, b);
  }

  lemma NoBlindShowsNewest(ops: seq<Op>)
    requires NoBlindOps(EMPTY_DB, ops)
    ensures ShowsNewest(Replay(EMPTY_DB, ops), ops)
  {
    forall k ensures ShowsOn(Replay(EMPTY_DB, ops), ops, k) {
      ReplayPerKey(EMPTY_DB, ops, k);
      NoBlindPerKey(EMPTY_DB, ops, k);
      NewestWriteDecides(EMPTY, WritesOn(k, ops));
    }
  }

  lemma SameOpsSameWinner(a: seq<Op>, b: seq<Op>, k: Key)
    requires SameOps(a, b) && TimesNameWrites(a)
    ensures Winner(WritesOn(k, a)) == Winner(WritesOn(k, b))
  {
    forall w ensures w in WritesOn(k, a) <==> w in WritesOn(k, b) {
      WritesOnMembers(k, a, w);
      WritesOnMembers(k, b, w);
    }
    forall v, w | v in WritesOn(k, a) && w in WritesOn(k, a) && v.Time() == w.Time() ensures v == w {
      WritesOnMembers(k, a, v);
      WritesOnMembers(k, a, w);
    }
    SameWritesSameWinner(WritesOn(k, a), WritesOn(k, b));
  }

  /** The hypothesis is needed: one upsert and one newer delete, in the two
      orders, end with the row on one replica and without it on the other. */
  lemma BlindDeleteDiverges(t: Table, r: Row, at: Ts)
    requires r.lww < at
    ensures var put, del := Op(t, r.id, Doc(r), r.lww), Op(t, r.id, Null, at);
            && SameOps([put, del], [del, put]) && TimesNameWrites([put, del])
            && NoBlindOps(EMPTY_DB, [put, del]) && !NoBlindOps(EMPTY_DB, [del, put])
            && Key(t, r.id) !in Replay(EMPTY_DB, [put, del]).rows
            && Key(t, r.id) in Replay(EMPTY_DB, [del, put]).rows
  {
    var put, del := Op(t, r.id, Doc(r), r.lww), Op(t, r.id, Null, at);
    PutThenDel(t, r, at, put, del);
    DelThenPut(t, r, at, put, del);
  }

  lemma PutThenDel(t: Table, r: Row, at: Ts, put: Op, del: Op)
    requires r.lww < at && put == Op(t, r.id, Doc(r), r.lww) && del == Op(t, r.id, Null, at)
    ensures NoBlindOps(EMPTY_DB, [put, del]) && Key(t, r.id) !in Replay(EMPTY_DB, [put, del]).rows
  {
    TwoOps(put, del);
    UpsertOnePerKey(EMPTY_DB, t, r, Key(t, r.id));
  }

  lemma DelThenPut(t: Table, r: Row, at: Ts, put: Op, del: Op)
    requires r.lww < at && put == Op(t, r.id, Doc(r), r.lww) && del == Op(t, r.id, Null, at)
    ensures !NoBlindOps(EMPTY_DB, [del, put]) && Key(t, r.id) in Replay(EMPTY_DB, [del, put]).rows
  {
    TwoOps(del, put);
    UpsertOnePerKey(EMPTY_DB, t, r, Key(t, r.id));
  }

  lemma TwoOps(p: Op, q: Op)
    ensures Replay(EMPTY_DB, [p, q]) == Applied(Applied(EMPTY_DB, p), q)
    ensures NoBlindOps(EMPTY_DB, [p, q]) <==> !BlindOp(EMPTY_DB, p) && !BlindOp(Applied(EMPTY_DB, p), q)
  {
    assert [p, q][..1] == [p] && [p][..0] == [];
    assert Replay(EMPTY_DB, [p]) == Applied(Replay(EMPTY_DB, []), p);
    assert NoBlindOps(EMPTY_DB, [p]) <==> !BlindOp(EMPTY_DB, p) by {
      assert NoBlindOps(EMPTY_DB, [p][..|[p]| - 1]);
    }
  }

  // ---------------------------------------------------------------------
  // The register law, in every reachable state
  // ---------------------------------------------------------------------

  /** What one key held after `n` ops. */
  function CellAt(ops: seq<Op>, k: Key, n: nat): Cell
    requires n <= |ops|
  {
    CellOf(Replay(EMPTY_DB, ops[..n]), k)
  }

  /** A key never has both a live row and a tombstone, and its clock never falls
      back: what covered `t` once covers it ever after. */
  lemma EveryStateIsARegister(ops: seq<Op>, k: Key, i: nat, j: nat, t: Ts)
    requires i <= j <= |ops|
    ensures Single(CellAt(ops, k, j))
    ensures !Behind(CellAt(ops, k, i), t) ==> !Behind(CellAt(ops, k, j), t)
  {
    var before, more := Replay(EMPTY_DB, ops[..i]), ops[i..j];
    assert ops[..j] == ops[..i] + more;
    ReplayConcat(EMPTY_DB, ops[..i], more);
    ReplayPerKey(before, more, k);
    ReplayDisjoint(EMPTY_DB, ops[..i]);
    assert Single(CellOf(before, k));
    RunSingle(CellOf(before, k), WritesOn(k, more));
    if !Behind(CellAt(ops, k, i), t) {
      ClockNeverFallsBackAlong(CellOf(before, k), WritesOn(k, more), t);
    }
  }

  /** The step an op makes on a key. */
  lemma OneOpOnKey(ops: seq<Op>, k: Key, i: nat)
    requires i < |ops|
    ensures var c, d := CellAt(ops, k, i), Decoded(ops[i]);
            && Single(c)
            && CellAt(ops, k, i + 1) == if d.Some? && d.value.0 == k then Step(c, d.value.1) else c
  {
    assert ops[..i + 1][..i] == ops[..i];
    EveryStateIsARegister(ops, k, i, i, 0);
    AppliedPerKey(Replay(EMPTY_DB, ops[..i]), ops[i], k);
    forall w ensures Run(CellAt(ops, k, i), [w]) == Step(CellAt(ops, k, i), w) {
      assert [w][..0] == [];
    }
  }

  /** Ops that take effect on a key have strictly increasing times. */
  lemma EffectiveOpsIncrease(ops: seq<Op>, k: Key, i: nat, j: nat)
    requires i < j < |ops|
    requires CellAt(ops, k, i + 1) != CellAt(ops, k, i) && CellAt(ops, k, j + 1) != CellAt(ops, k, j)
    ensures Applyable(ops[i]) && Applyable(ops[j])
    ensures Decoded(ops[i]).value.1.Time() < Decoded(ops[j]).value.1.Time()
  {
    OneOpOnKey(ops, k, i);
    OneOpOnKey(ops, k, j);
    EveryStateIsARegister(ops, k, i + 1, j, Decoded(ops[i]).value.1.Time());
  }

  /** A deleted row comes back exactly for an upsert of it that the tombstone
      guard allows. */
  lemma DeletedRowComesBackExactly(ops: seq<Op>, k: Key, i: nat)
    requires i < |ops| && k in Replay(EMPTY_DB, ops[..i]).tombs
    ensures k in Replay(EMPTY_DB, ops[..i + 1]).rows <==>
              && Applyable(ops[i]) && Decoded(ops[i]).value.0 == k && Kind(ops[i]) == Upsert
              && TombstoneAllows(Decoded(ops[i]).value.1.Time(), Some(Replay(EMPTY_DB, ops[..i]).tombs[k]))
  {
    OneOpOnKey(ops, k, i);
    if Applyable(ops[i]) {
      ResurrectionIsTheTombstoneGuard(CellAt(ops, k, i), Decoded(ops[i]).value.1);
    }
  }

  // ---------------------------------------------------------------------
  // Redelivery
  // ---------------------------------------------------------------------

  /** Replaying an already applied stretch and then going on is going on. */
  lemma {:induction false} OverlapReplay(ops: seq<Op>, i: nat, j: nat)
    requires i <= j <= |ops|
    requires NoBlindOps(Replay(EMPTY_DB, ops[..i]), ops[i..j])
    ensures Replay(Replay(EMPTY_DB, ops[..j]), ops[i..]) == Replay(EMPTY_DB, ops)
  {
    SplitTwice(ops, i, j);
    OverlapParts(ops[..i], ops[i..j], ops[j..]);
  }

  lemma SplitTwice(ops: seq<Op>, i: nat, j: nat)
    requires i <= j <= |ops|
    ensures ops[..j] == ops[..i] + ops[i..j] && ops[i..] == ops[i..j] + ops[j..]
    ensures ops == ops[..i] + (ops[i..j] + ops[j..])
  {
  }

  lemma OverlapParts(pre: seq<Op>, a: seq<Op>, b: seq<Op>)
    requires NoBlindOps(Replay(EMPTY_DB, pre), a)
    ensures Replay(Replay(EMPTY_DB, pre + a), a + b) == Replay(EMPTY_DB, pre + (a + b))
  {
    ReplayConcat(EMPTY_DB, pre, a);
    ReplayConcat(EMPTY_DB, pre, a + b);
    ReplayDisjoint(EMPTY_DB, pre);
    OverlapFrom(Replay(EMPTY_DB, pre), a, b);
  }

  lemma OverlapFrom(base: Db, a: seq<Op>, b: seq<Op>)
    requires Disjoint(base) && NoBlindOps(base, a)
    ensures Replay(Replay(base, a), a + b) == Replay(base, a + b)
  {
    forall k ensures CellOf(Replay(Replay(base, a), a + b), k) == CellOf(Replay(base, a + b), k) {
      assert Single(CellOf(base, k));
      ReplayPerKey(base, a, k);
      ReplayPerKey(Replay(base, a), a + b, k);
      ReplayPerKey(base, a + b, k);
      WritesOnConcat(k, a, b);
      NoBlindPerKey(base, a, k);
      OverlapReplayIsHarmless(CellOf(base, k), WritesOn(k, a), WritesOn(k, b));
    }
    SameCells(Replay(Replay(base, a), a + b), Replay(base, a + b));
  }

  /** An op redelivered to a server that already committed it changes nothing,
      whatever was committed in between. */
  lemma ResendChangesNothing(ops: seq<Op>, op: Op)
    requires NoBlindOps(EMPTY_DB, ops) && op in ops
    ensures Applied(Replay(EMPTY_DB, ops), op) == Replay(EMPTY_DB, ops)
    ensures !BlindOp(Replay(EMPTY_DB, ops), op)
  {
    var db := Replay(EMPTY_DB, ops);
    forall k
      ensures CellOf(Applied(db, op), k) == CellOf(db, k)
      ensures forall w | w in WriteOn(k, op) :: !Blind(CellOf(db, k), w)
    {
      ReplayPerKey(EMPTY_DB, ops, k);
      NoBlindPerKey(EMPTY_DB, ops, k);
      RunCoversItsWrites(EMPTY, WritesOn(k, ops));
      RunSingle(EMPTY, WritesOn(k, ops));
      AppliedPerKey(db, op, k);
      forall w | w in WriteOn(k, op) ensures w in WritesOn(k, ops) {
        WritesOnMembers(k, ops, w);
      }
      CoveredWritesChangeNothing(CellOf(db, k), WriteOn(k, op));
    }
    SameCells(Applied(db, op), db);
    if op.data.Null? {
      assert Del(op.updatedAt) in WriteOn(Key(op.table, op.id), op);
    }
  }

  /** Redelivering a committed op, in general: a resent upsert never changes
      anything, a resent delete exactly when it finds an older live row. */
  lemma {:induction false} ResendExactly(ops: seq<Op>, op: Op)
    requires op in ops
    ensures var db := Replay(EMPTY_DB, ops);
            Applied(db, op) == db <==> !(op.data.Null? && FindsRow(CellOf(db, Key(op.table, op.id)), Del(op.updatedAt)))
  {
    var db := Replay(EMPTY_DB, ops);
    if op.data.Null? {
      DeleteChangesExactly(db, op);
    } else {
      forall k ensures CellOf(Applied(db, op), k) == CellOf(db, k) {
        ReplayPerKey(EMPTY_DB, ops, k);
        RunCoversItsUpserts(EMPTY, WritesOn(k, ops));
        RunSingle(EMPTY, WritesOn(k, ops));
        AppliedPerKey(db, op, k);
        forall w | w in WriteOn(k, op) ensures w in WritesOn(k, ops) {
          WritesOnMembers(k, ops, w);
        }
        CoveredWritesChangeNothing(CellOf(db, k), WriteOn(k, op));
      }
      SameCells(Applied(db, op), db);
    }
  }

  lemma DeleteChangesExactly(db: Db, op: Op)
    requires op.data.Null?
    ensures Applied(db, op) == db <==> !FindsRow(CellOf(db, Key(op.table, op.id)), Del(op.updatedAt))
  {
    forall k ensures CellOf(Applied(db, op), k) ==
                     if k == Key(op.table, op.id) then Deleted(CellOf(db, k), op.updatedAt) else CellOf(db, k)
    {
      DeleteRowsPerKey(db, op.table, [Stamp(op.id, op.updatedAt)], k);
    }
    if !FindsRow(CellOf(db, Key(op.table, op.id)), Del(op.updatedAt)) {
      SameCells(Applied(db, op), db);
    }
  }

  // ---------------------------------------------------------------------
  // Snapshot bootstrap
  // ---------------------------------------------------------------------

  /** How many of a key's writes the first `n` ops hold. */
  function CutOn(k: Key, ops: seq<Op>, n: nat): nat
    requires n <= |ops|
  {
    |WritesOn(k, ops[..n])|
  }

  lemma {:induction false} CutIsPrefix(k: Key, ops: seq<Op>, n: nat)
    requires n <= |ops|
    ensures CutOn(k, ops, n) <= |WritesOn(k, ops)|
    ensures WritesOn(k, ops)[..CutOn(k, ops, n)] == WritesOn(k, ops[..n])
    ensures WritesOn(k, ops)[CutOn(k, ops, n)..] == WritesOn(k, ops[n..])
    ensures At(WritesOn(k, ops), CutOn(k, ops, n)) == CellOf(Replay(EMPTY_DB, ops[..n]), k)
  {
    assert ops == ops[..n] + ops[n..];
    WritesOnConcat(k, ops[..n], ops[n..]);
    ReplayPerKey(EMPTY_DB, ops[..n], k);
  }

  lemma CutsGrow(k: Key, ops: seq<Op>, m: nat, n: nat)
    requires m <= n <= |ops|
    ensures CutOn(k, ops, m) <= CutOn(k, ops, n)
  {
    assert ops[..n] == ops[..m] + ops[m..n];
    WritesOnConcat(k, ops[..m], ops[m..n]);
  }

  /** The server's rows of the snapshot: each read somewhere in `[s, t]`. */
  ghost predicate RowsReadBetween(tables: seq<TableData>, ops: seq<Op>, s: nat, t: nat)
    requires s <= t <= |ops|
  {
    forall k :: exists r :: s <= r <= t && SnapRow(tables, k) == Find(Replay(EMPTY_DB, ops[..r]).rows, k)
  }

  /** Each row and each tombstone of the replica is one the server held at some
      point of its history: a replica at any cursor, one that lost tombstones,
      one with a snapshot half applied. */
  ghost predicate ServerHeld(local: Db, ops: seq<Op>) {
    && (forall k | k in local.rows :: exists n | 0 <= n <= |ops| :: CellAt(ops, k, n).row == Some(local.rows[k]))
    && (forall k | k in local.tombs :: exists n | 0 <= n <= |ops| :: CellAt(ops, k, n).tomb == Some(local.tombs[k]))
  }

  /** A replica that followed the server to its first `n` ops: the server's rows,
      and tombstones the server holds or once held, none newer than its own. */
  ghost predicate Trails(local: Db, ops: seq<Op>, n: nat)
    requires n <= |ops|
  {
    ShortOf(local, Replay(EMPTY_DB, ops[..n])) && ServerHeld(local, ops[..n])
  }

  lemma ServerTrails(ops: seq<Op>, n: nat)
    requires n <= |ops|
    ensures Trails(Replay(EMPTY_DB, ops[..n]), ops, n)
  {
    var local := Replay(EMPTY_DB, ops[..n]);
    assert ops[..n][..n] == ops[..n];
    assert forall k | k in local.rows :: CellAt(ops[..n], k, n).row == Some(local.rows[k]);
    assert forall k | k in local.tombs :: CellAt(ops[..n], k, n).tomb == Some(local.tombs[k]);
  }

  /** What the server once held it still once held. */
  lemma HeldStaysHeld(local: Db, ops: seq<Op>, n: nat)
    requires n <= |ops| && ServerHeld(local, ops[..n])
    ensures ServerHeld(local, ops)
  {
    forall k | k in local.rows ensures exists j | 0 <= j <= |ops| :: CellAt(ops, k, j).row == Some(local.rows[k]) {
      var j :| 0 <= j <= n && CellAt(ops[..n], k, j).row == Some(local.rows[k]);
      SameCellEarlier(ops, n, k, j);
    }
    forall k | k in local.tombs ensures exists j | 0 <= j <= |ops| :: CellAt(ops, k, j).tomb == Some(local.tombs[k]) {
      var j :| 0 <= j <= n && CellAt(ops[..n], k, j).tomb == Some(local.tombs[k]);
      SameCellEarlier(ops, n, k, j);
    }
  }

  lemma SameCellEarlier(ops: seq<Op>, n: nat, k: Key, j: nat)
    requires j <= n <= |ops|
    ensures CellAt(ops[..n], k, j) == CellAt(ops, k, j)
  {
    assert ops[..n][..j] == ops[..j];
  }

  lemma ReplayOn(ops: seq<Op>, m: nat, n: nat)
    requires m <= n <= |ops|
    ensures Replay(Replay(EMPTY_DB, ops[..m]), ops[m..n]) == Replay(EMPTY_DB, ops[..n])
  {
    assert ops[..n] == ops[..m] + ops[m..n];
    ReplayConcat(EMPTY_DB, ops[..m], ops[m..n]);
  }

  /** The next connection can start from there, whatever is pushed until then. */
  lemma ConnectionsChain(local: Db, ops: seq<Op>, n: nat, more: seq<Op>)
    requires n <= |ops| && Trails(local, ops, n)
    ensures Trails(local, ops + more, n) && ServerHeld(local, ops + more)
  {
    assert (ops + more)[..n] == ops[..n];
    HeldStaysHeld(local, ops + more, n);
  }

  /** One window on: the replica trails the server again exactly when the window
      resurrects nothing, and is the server exactly when it levels every key. */
  lemma {:induction false} WindowTrailsExactly(local: Db, ops: seq<Op>, n: nat, m: nat)
    requires n <= m <= |ops| && Trails(local, ops, n) && NoBlindOps(Replay(EMPTY_DB, ops[..n]), ops[n..m])
    ensures var server, end := Replay(EMPTY_DB, ops[..n]), ApplyWindow(local, ops[n..m]);
            && (Trails(end, ops, m) <==> NoneResurrects(local, server, ops[n..m]))
            && (end == Replay(EMPTY_DB, ops[..m]) <==> AllLevel(local, server, ops[n..m]))
  {
    var server, v := Replay(EMPTY_DB, ops[..n]), ops[n..m];
    ReplayOn(ops, n, m);
    ReplayDisjoint(EMPTY_DB, ops[..n]);
    WindowFromShort(local, server, v);
    if NoneResurrects(local, server, v) { WindowKeepsHeld(local, ops, n, m); }
  }

  lemma WindowKeepsHeld(local: Db, ops: seq<Op>, n: nat, m: nat)
    requires n <= m <= |ops| && Trails(local, ops, n) && NoBlindOps(Replay(EMPTY_DB, ops[..n]), ops[n..m])
    requires ShortOf(ApplyWindow(local, ops[n..m]), Replay(EMPTY_DB, ops[..m]))
    ensures ServerHeld(ApplyWindow(local, ops[n..m]), ops[..m])
  {
    var now, v, end := ops[..m], ops[n..m], ApplyWindow(local, ops[n..m]);
    var server := Replay(EMPTY_DB, now);
    assert now[..n] == ops[..n] && now[..m] == now;
    HeldStaysHeld(local, now, n);
    forall k | k in end.rows ensures exists j | 0 <= j <= m :: CellAt(now, k, j).row == Some(end.rows[k]) {
      assert CellAt(now, k, m).row == Some(end.rows[k]);
    }
    forall k | k in end.tombs ensures exists j | 0 <= j <= m :: CellAt(now, k, j).tomb == Some(end.tombs[k]) {
      WindowTombs(local, ops, n, m, k);
      if server.tombs[k] == end.tombs[k] { assert CellAt(now, k, m).tomb == Some(end.tombs[k]); }
    }
  }

  lemma WindowTombs(local: Db, ops: seq<Op>, n: nat, m: nat, k: Key)
    requires n <= m <= |ops| && NoBlindOps(Replay(EMPTY_DB, ops[..n]), ops[n..m])
    requires ShortOf(local, Replay(EMPTY_DB, ops[..n]))
    ensures var t := CellOf(ApplyWindow(local, ops[n..m]), k).tomb;
            t == None || t == CellOf(Replay(EMPTY_DB, ops[..m]), k).tomb || t == CellOf(local, k).tomb
  {
    ReplayOn(ops, n, m);
    ReplayDisjoint(EMPTY_DB, ops[..n]);
    WindowOnShortKey(local, Replay(EMPTY_DB, ops[..n]), k, ops[n..m]);
  }

  lemma HeldIsShown(local: Db, ops: seq<Op>, k: Key)
    requires ServerHeld(local, ops)
    ensures Shown(CellOf(local, k), WritesOn(k, ops))
  {
    if k in local.rows {
      var n :| 0 <= n <= |ops| && CellAt(ops, k, n).row == Some(local.rows[k]);
      CutIsPrefix(k, ops, n);
    }
    if k in local.tombs {
      var n :| 0 <= n <= |ops| && CellAt(ops, k, n).tomb == Some(local.tombs[k]);
      CutIsPrefix(k, ops, n);
    }
  }

  /** Every live row of the replica that the server has deleted is removed by
      a delete of the replay. */
  ghost predicate StaleRowsRemoved(local: Db, server: Db, replayed: Key -> seq<Write>) {
    forall k :: k in local.rows && k in server.tombs ==> Removes(replayed(k), local.rows[k])
  }

  /** Every key the server deleted comes out right: under its final tombstone a
      live row meets a newer delete, and a delete still to come lands. */
  ghost predicate AllArrive(installed: Db, server: Db, replayed: Key -> seq<Write>) {
    forall k :: Arrives(CellOf(installed, k), CellOf(server, k), replayed(k))
  }

  /** The positions of a snapshot, seen from one key. */
  lemma KeyCuts(ops: seq<Op>, k: Key, s: nat, r: nat, t: nat)
    requires s <= r <= t <= |ops| && NoBlindOps(Replay(EMPTY_DB, ops[..s]), ops[s..])
    ensures var ws, a, b, e := WritesOn(k, ops), CutOn(k, ops, s), CutOn(k, ops, r), CutOn(k, ops, t);
            && a <= b <= e <= |ws| && ws[a..] == WritesOn(k, ops[s..]) && NoBlind(At(ws, a), ws[a..])
            && At(ws, b) == CellAt(ops, k, r) && At(ws, e) == CellAt(ops, k, t)
            && Run(EMPTY, ws) == CellOf(Replay(EMPTY_DB, ops), k)
            && (t == |ops| ==> e == |ws|)
  {
    var ws, a, b, e := WritesOn(k, ops), CutOn(k, ops, s), CutOn(k, ops, r), CutOn(k, ops, t);
    assert a <= |ws| && At(ws, a) == CellAt(ops, k, s) && ws[a..] == WritesOn(k, ops[s..]) by {
      CutIsPrefix(k, ops, s);
    }
    assert b <= |ws| && At(ws, b) == CellAt(ops, k, r) by { CutIsPrefix(k, ops, r); }
    assert e <= |ws| && At(ws, e) == CellAt(ops, k, t) by { CutIsPrefix(k, ops, t); }
    assert a <= b <= e by {
      CutsGrow(k, ops, s, r);
      CutsGrow(k, ops, r, t);
    }
    assert NoBlind(At(ws, a), ws[a..]) by { NoBlindPerKey(Replay(EMPTY_DB, ops[..s]), ops[s..], k); }
    assert Run(EMPTY, ws) == CellOf(Replay(EMPTY_DB, ops), k) by { ReplayPerKey(EMPTY_DB, ops, k); }
    assert t == |ops| ==> e == |ws| by { assert ops[..|ops|] == ops; }
  }

  /** One key of a bootstrap, whatever stands for the ops after `s`. */
  lemma BootstrapKey(ops: seq<Op>, k: Key, c: Cell, s: nat, r: nat, t: nat, v: seq<Write>)
    requires s <= r <= t <= |ops| && NoBlindOps(Replay(EMPTY_DB, ops[..s]), ops[s..])
    requires Shown(c, WritesOn(k, ops)) && StandsFor(v, WritesOn(k, ops[s..]))
    ensures var d := Installed(c, CellAt(ops, k, r).row, CellAt(ops, k, t).tomb);
            var server := CellOf(Replay(EMPTY_DB, ops), k);
            Run(d, v) == server <==> Arrives(d, server, v)
  {
    KeyCuts(ops, k, s, r, t);
    BootstrapExact(c, WritesOn(k, ops), CutOn(k, ops, s), CutOn(k, ops, r), CutOn(k, ops, t), v);
  }

  /** ... where the tombstones are the last ones or the replay is op by op. */
  lemma BootstrapKeyLocally(ops: seq<Op>, k: Key, c: Cell, s: nat, r: nat, t: nat, v: seq<Write>)
    requires s <= r <= t <= |ops| && NoBlindOps(Replay(EMPTY_DB, ops[..s]), ops[s..])
    requires Shown(c, WritesOn(k, ops)) && StandsFor(v, WritesOn(k, ops[s..]))
    requires t == |ops| || v == WritesOn(k, ops[s..])
    ensures var d := Installed(c, CellAt(ops, k, r).row, CellAt(ops, k, t).tomb);
            var server := CellOf(Replay(EMPTY_DB, ops), k);
            Run(d, v) == server <==> StaleRowGoes(c, server, v)
  {
    KeyCuts(ops, k, s, r, t);
    BootstrapExactLocally(c, WritesOn(k, ops), CutOn(k, ops, s), CutOn(k, ops, r), CutOn(k, ops, t), v);
  }

  /** The bootstrap in full: the snapshot serves seq position `s`; each row was
      read at some position from `s` to `t`, the tombstones at `t`; the replay
      after `s` comes in windows, collapsed as the client does. A replica that
      holds only what the server once held ends with exactly the server's rows
      and tombstones if and only if every key the server deleted arrives. What
      was blind before `s` does not matter. */
  lemma {:induction false} TornWindowedBootstrap(ops: seq<Op>, local: Db, s: nat, t: nat, vs: seq<seq<Op>>,
                                                 tables: seq<TableData>, tombs: seq<Tombstone>)
    requires s <= t <= |ops| && NoBlindOps(Replay(EMPTY_DB, ops[..s]), ops[s..]) && Flat(vs) == ops[s..]
    requires ServerHeld(local, ops) && DistinctTables(tables) && RowsReadBetween(tables, ops, s, t)
    requires TombsOf(tombs) == Replay(EMPTY_DB, ops[..t]).tombs
    ensures ApplyWindows(Install(local, tables, tombs), vs) == Replay(EMPTY_DB, ops) <==>
            AllArrive(Install(local, tables, tombs), Replay(EMPTY_DB, ops), k => Winners(k, vs))
  {
    var installed, server := Install(local, tables, tombs), Replay(EMPTY_DB, ops);
    var end := ApplyWindows(installed, vs);
    forall k ensures CellOf(end, k) == CellOf(server, k) <==>
                     Arrives(CellOf(installed, k), CellOf(server, k), Winners(k, vs))
    {
      WindowedKey(ops, local, k, s, t, vs, tables, tombs);
    }
    SameOrNot(end, server);
  }

  lemma WindowedKey(ops: seq<Op>, local: Db, k: Key, s: nat, t: nat, vs: seq<seq<Op>>, tables: seq<TableData>,
                    tombs: seq<Tombstone>)
    requires s <= t <= |ops| && NoBlindOps(Replay(EMPTY_DB, ops[..s]), ops[s..]) && Flat(vs) == ops[s..]
    requires ServerHeld(local, ops) && DistinctTables(tables) && RowsReadBetween(tables, ops, s, t)
    requires TombsOf(tombs) == Replay(EMPTY_DB, ops[..t]).tombs
    ensures var installed, server := Install(local, tables, tombs), CellOf(Replay(EMPTY_DB, ops), k);
            var end := CellOf(ApplyWindows(installed, vs), k);
            && (end == server <==> Arrives(CellOf(installed, k), server, Winners(k, vs)))
            && (t == |ops| ==> (end == server <==> StaleRowGoes(CellOf(local, k), server, Winners(k, vs))))
  {
    var r :| s <= r <= t && SnapRow(tables, k) == Find(Replay(EMPTY_DB, ops[..r]).rows, k);
    InstallPerKey(local, tables, tombs, k);
    ApplyWindowsPerKey(Install(local, tables, tombs), vs, k);
    HeldIsShown(local, ops, k);
    WinnersStandForOps(k, vs);
    BootstrapKey(ops, k, CellOf(local, k), s, r, t, Winners(k, vs));
    if t == |ops| { BootstrapKeyLocally(ops, k, CellOf(local, k), s, r, t, Winners(k, vs)); }
  }

  /** With the replay applied op by op the torn bootstrap depends only on the
      replica's own rows: it is exact if and only if every local live row the
      server deleted meets a newer delete in the replay. */
  lemma {:induction false} TornSnapshotBootstrap(ops: seq<Op>, local: Db, s: nat, t: nat, tables: seq<TableData>,
                                                 tombs: seq<Tombstone>)
    requires s <= t <= |ops| && NoBlindOps(Replay(EMPTY_DB, ops[..s]), ops[s..])
    requires ServerHeld(local, ops) && DistinctTables(tables) && RowsReadBetween(tables, ops, s, t)
    requires TombsOf(tombs) == Replay(EMPTY_DB, ops[..t]).tombs
    ensures Replay(Install(local, tables, tombs), ops[s..]) == Replay(EMPTY_DB, ops) <==>
            StaleRowsRemoved(local, Replay(EMPTY_DB, ops), k => WritesOn(k, ops[s..]))
  {
    var server := Replay(EMPTY_DB, ops);
    var end := Replay(Install(local, tables, tombs), ops[s..]);
    forall k ensures CellOf(end, k) == CellOf(server, k) <==>
                     StaleRowGoes(CellOf(local, k), CellOf(server, k), WritesOn(k, ops[s..])) {
      var r :| s <= r <= t && SnapRow(tables, k) == Find(Replay(EMPTY_DB, ops[..r]).rows, k);
      InstallPerKey(local, tables, tombs, k);
      ReplayPerKey(Install(local, tables, tombs), ops[s..], k);
      HeldIsShown(local, ops, k);
      StandsForItself(WritesOn(k, ops[s..]));
      BootstrapKeyLocally(ops, k, CellOf(local, k), s, r, t, WritesOn(k, ops[s..]));
    }
    ExactPerKey(end, server, local, k => WritesOn(k, ops[s..]));
  }

  lemma StandsForItself(ws: seq<Write>)
    ensures StandsFor(ws, ws)
  {
  }

  /** And so does a quiet server's in windows: there the snapshot's tombstones
      are the last ones, and what counts is the deletes the client really
      executes. */
  lemma {:induction false} QuietSnapshotBootstrap(ops: seq<Op>, local: Db, s: nat, vs: seq<seq<Op>>,
                                                  tables: seq<TableData>, tombs: seq<Tombstone>)
    requires s <= |ops| && NoBlindOps(Replay(EMPTY_DB, ops[..s]), ops[s..]) && Flat(vs) == ops[s..]
    requires ServerHeld(local, ops) && DistinctTables(tables) && RowsReadBetween(tables, ops, s, |ops|)
    requires TombsOf(tombs) == Replay(EMPTY_DB, ops).tombs
    ensures ApplyWindows(Install(local, tables, tombs), vs) == Replay(EMPTY_DB, ops) <==>
            StaleRowsRemoved(local, Replay(EMPTY_DB, ops), k => Winners(k, vs))
  {
    var server := Replay(EMPTY_DB, ops);
    var end := ApplyWindows(Install(local, tables, tombs), vs);
    assert ops[..|ops|] == ops;
    forall k ensures CellOf(end, k) == CellOf(server, k) <==>
                     StaleRowGoes(CellOf(local, k), CellOf(server, k), Winners(k, vs)) {
      WindowedKey(ops, local, k, s, |ops|, vs, tables, tombs);
    }
    ExactPerKey(end, server, local, k => Winners(k, vs));
  }

  lemma ExactPerKey(end: Db, server: Db, local: Db, replayed: Key -> seq<Write>)
    requires forall k :: CellOf(end, k) == CellOf(server, k) <==>
                         StaleRowGoes(CellOf(local, k), CellOf(server, k), replayed(k))
    ensures end == server <==> StaleRowsRemoved(local, server, replayed)
  {
    SameOrNot(end, server);
    if StaleRowsRemoved(local, server, replayed) {
      forall k ensures StaleRowGoes(CellOf(local, k), CellOf(server, k), replayed(k)) {
        assert k in local.rows && k in server.tombs ==> Removes(replayed(k), local.rows[k]);
      }
    }
    if end == server {
      forall k | k in local.rows && k in server.tombs ensures Removes(replayed(k), local.rows[k]) {
        assert StaleRowGoes(CellOf(local, k), CellOf(server, k), replayed(k));
      }
    }
  }

  /** A replica with nothing live yet always bootstraps exactly. */
  lemma {:induction false} ColdBootstrap(ops: seq<Op>, local: Db, s: nat, vs: seq<seq<Op>>, tables: seq<TableData>,
                                         tombs: seq<Tombstone>)
    requires s <= |ops| && NoBlindOps(Replay(EMPTY_DB, ops[..s]), ops[s..]) && Flat(vs) == ops[s..]
    requires ServerHeld(local, ops) && local.rows == map[]
    requires DistinctTables(tables) && RowsReadBetween(tables, ops, s, |ops|)
    requires TombsOf(tombs) == Replay(EMPTY_DB, ops).tombs
    ensures ApplyWindows(Install(local, tables, tombs), vs) == Replay(EMPTY_DB, ops)
  {
    QuietSnapshotBootstrap(ops, local, s, vs, tables, tombs);
  }

  /** On a busy server the rows alone agree if every key the server deleted
      arrives, or is not live after the snapshot and sees no upsert since. */
  lemma {:induction false} TornRowsAgree(ops: seq<Op>, local: Db, s: nat, t: nat, vs: seq<seq<Op>>,
                                         tables: seq<TableData>, tombs: seq<Tombstone>)
    requires s <= t <= |ops| && NoBlindOps(Replay(EMPTY_DB, ops[..s]), ops[s..]) && Flat(vs) == ops[s..]
    requires ServerHeld(local, ops) && DistinctTables(tables) && RowsReadBetween(tables, ops, s, t)
    requires TombsOf(tombs) == Replay(EMPTY_DB, ops[..t]).tombs
    requires var installed, server := Install(local, tables, tombs), Replay(EMPTY_DB, ops);
             forall k | k in server.tombs ::
               || Arrives(CellOf(installed, k), CellOf(server, k), Winners(k, vs))
               || (k !in installed.rows && forall w | w in Winners(k, vs) :: w.Del?)
    ensures ApplyWindows(Install(local, tables, tombs), vs).rows == Replay(EMPTY_DB, ops).rows
  {
    var installed, server := Install(local, tables, tombs), Replay(EMPTY_DB, ops);
    var end := ApplyWindows(installed, vs);
    forall k ensures CellOf(end, k).row == CellOf(server, k).row {
      WindowedKey(ops, local, k, s, t, vs, tables, tombs);
      if !Arrives(CellOf(installed, k), CellOf(server, k), Winners(k, vs)) {
        ApplyWindowsPerKey(installed, vs, k);
        DeletesKeepDead(CellOf(installed, k), Winners(k, vs));
        ReplayDisjoint(EMPTY_DB, ops);
        assert Single(CellOf(server, k));
      }
    }
    SameRows(end, server);
  }

  lemma {:induction false} DeletesKeepDead(c: Cell, ws: seq<Write>)
    requires c.row.None? && forall w | w in ws :: w.Del?
    ensures Run(c, ws) == c
  {
    if |ws| == 0 {
    } else {
      assert ws[|ws| - 1] in ws && forall w | w in ws[..|ws| - 1] :: w in ws;
      DeletesKeepDead(c, ws[..|ws| - 1]);
    }
  }

  // ---------------------------------------------------------------------
  // Following in windows
  // ---------------------------------------------------------------------

  /** A replica that trails the server and goes through windows none of which
      resurrects a key trails it again. */
  lemma {:induction false} WindowsTrail(local: Db, ops: seq<Op>, n: nat, vs: seq<seq<Op>>, m: nat)
    requires n <= m <= |ops| && Trails(local, ops, n) && Flat(vs) == ops[n..m]
    requires NoBlindOps(Replay(EMPTY_DB, ops[..n]), ops[n..m])
    requires NoWindowResurrects(local, Replay(EMPTY_DB, ops[..n]), vs)
    ensures Trails(ApplyWindows(local, vs), ops, m)
  {
    if |vs| == 0 {
      assert ops[..n] == ops[..m];
    } else {
      var init, v := vs[..|vs| - 1], vs[|vs| - 1];
      var j := SplitLast(ops, n, m, Flat(init), v);
      NoBlindAfter(ops, n, j, m);
      WindowsTrail(local, ops, n, init, j);
      OneMoreTrails(ApplyWindows(local, init), ops, j, v, m);
    }
  }

  lemma OneMoreTrails(local: Db, ops: seq<Op>, n: nat, v: seq<Op>, m: nat)
    requires n <= m <= |ops| && Trails(local, ops, n) && v == ops[n..m]
    requires NoBlindOps(Replay(EMPTY_DB, ops[..n]), v) && NoneResurrects(local, Replay(EMPTY_DB, ops[..n]), v)
    ensures Trails(ApplyWindow(local, v), ops, m)
  {
    WindowTrailsExactly(local, ops, n, m);
  }

  lemma NoBlindAfter(ops: seq<Op>, n: nat, j: nat, m: nat)
    requires n <= j <= m <= |ops| && NoBlindOps(Replay(EMPTY_DB, ops[..n]), ops[n..m])
    ensures NoBlindOps(Replay(EMPTY_DB, ops[..n]), ops[n..j]) && NoBlindOps(Replay(EMPTY_DB, ops[..j]), ops[j..m])
    ensures Replay(Replay(EMPTY_DB, ops[..n]), ops[n..j]) == Replay(EMPTY_DB, ops[..j])
  {
    ReplayOn(ops, n, j);
    assert ops[n..m] == ops[n..j] + ops[j..m];
    NoBlindOpsConcat(Replay(EMPTY_DB, ops[..n]), ops[n..j], ops[j..m]);
  }

  lemma SplitLast(ops: seq<Op>, n: nat, m: nat, a: seq<Op>, v: seq<Op>) returns (j: nat)
    requires n <= m <= |ops| && a + v == ops[n..m]
    ensures n <= j <= m && a == ops[n..j] && v == ops[j..m]
  {
    assert |a + v| == m - n;
    j := n + |a|;
    assert a == (a + v)[..|a|] && v == (a + v)[|a|..];
  }
}
