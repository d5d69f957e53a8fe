/**
 The synced tables and the tombstone table, and what the generated statements
 do to them. Every statement is set-based: it reads the state before it, as one
 SQL statement does, and an n-row statement sees all its rows at once.
 */
module Store {
  import opened Protocol
  import opened Register

  /** `rows` is the union of the live tables, `tombs` is `oxylite.tombstones`. */
  datatype Db = Db(rows: map<Key, Row>, tombs: map<Key, Ts>)

  const EMPTY_DB := Db(map[], map[])

  function Find<K, V>(m: map<K, V>, k: K): Option<V> {
    if k in m then Some(m[k]) else None
  }

  function CellOf(db: Db, k: Key): Cell {
    Cell(Find(db.rows, k), Find(db.tombs, k))
  }

  /** A key never holds both a live row and a tombstone. */
  ghost predicate Disjoint(db: Db) {
    forall k :: Single(CellOf(db, k))
  }

  lemma SameCells(a: Db, b: Db)
    requires forall k :: CellOf(a, k) == CellOf(b, k)
    ensures a == b
  {
    forall k ensures k in a.rows <==> k in b.rows
      ensures k in a.rows ==> a.rows[k] == b.rows[k]
      ensures k in a.tombs <==> k in b.tombs
      ensures k in a.tombs ==> a.tombs[k] == b.tombs[k]
    {
      assert CellOf(a, k) == CellOf(b, k);
    }
    assert a.rows == b.rows && a.tombs == b.tombs;
  }

  // ---------------------------------------------------------------------
  // The statements
  // ---------------------------------------------------------------------

  /** One `(id, at)` pair of a VALUES list. */
  datatype Stamp = Stamp(id: Id, at: Ts)

  function RowFor(rs: seq<Row>, id: Id): Option<Row> {
    if rs == [] then None
    else if rs[0].id == id then Some(rs[0])
    else RowFor(rs[1..], id)
  }

  function StampFor(ws: seq<Stamp>, id: Id): Option<Ts> {
    if ws == [] then None
    else if ws[0].id == id then Some(ws[0].at)
    else StampFor(ws[1..], id)
  }

  function RowKeys(table: Table, rs: seq<Row>): set<Key> {
    set r | r in rs :: Key(table, r.id)
  }

  /** Postgres refuses a statement that would touch one key twice, so callers
      hand over rows of pairwise distinct keys. */
  predicate DistinctRows(rs: seq<Row>) {
    forall i, j | 0 <= i < j < |rs| :: rs[i].id != rs[j].id
  }

  predicate DistinctStamps(ws: seq<Stamp>) {
    forall i, j | 0 <= i < j < |ws| :: ws[i].id != ws[j].id
  }

  /** `guarded_upsert_sql(|rs|)`. */
  function GuardedUpsert(db: Db, table: Table, rs: seq<Row>): Db {
    db.(rows := map k | k in db.rows.Keys + RowKeys(table, rs) && UpsertedRow(db, table, rs, k).Some?
                      :: UpsertedRow(db, table, rs, k).value)
  }

  function UpsertedRow(db: Db, table: Table, rs: seq<Row>, k: Key): Option<Row> {
    var held := Find(db.rows, k);
    var proposed := if k.table == table then RowFor(rs, k.id) else None;
    if proposed.None? || (k in db.tombs && db.tombs[k] >= proposed.value.lww) then held
    else if held.None? || proposed.value.lww > held.value.lww then proposed
    else held
  }

  /** `tombstone_clear_sql(|ws|)`. */
  function TombstoneClear(db: Db, table: Table, ws: seq<Stamp>): Db {
    db.(tombs := map k | k in db.tombs && !(k.table == table && StampFor(ws, k.id).Some?
                                            && db.tombs[k] < StampFor(ws, k.id).value)
                       :: db.tombs[k])
  }

  /** `delete_sql(|ws|)`: the `gone` rows leave, and each leaves a tombstone
      unless a newer one is already there. */
  function DeleteRows(db: Db, table: Table, ws: seq<Stamp>): Db {
    var gone := set k | k in db.rows && k.table == table && StampFor(ws, k.id).Some?
                        && db.rows[k].lww < StampFor(ws, k.id).value;
    Db(db.rows - gone,
       map k | k in db.tombs.Keys + gone
             :: if k in gone && !(k in db.tombs && db.tombs[k] >= StampFor(ws, k.id).value)
                then StampFor(ws, k.id).value else db.tombs[k])
  }

  function Stamped(r: Row): Stamp { Stamp(r.id, r.lww) }

  function Stamps(rs: seq<Row>): seq<Stamp> {
    seq(|rs|, i requires 0 <= i < |rs| => Stamped(rs[i]))
  }

  /** The upsert couple the appliers run: guarded upsert, then tombstone clear. */
  function UpsertAndClear(db: Db, table: Table, rs: seq<Row>): Db {
    TombstoneClear(GuardedUpsert(db, table, rs), table, Stamps(rs))
  }

  // ---------------------------------------------------------------------
  // Per key
  // ---------------------------------------------------------------------

  lemma {:induction false} RowForIsPresent(rs: seq<Row>, id: Id)
    ensures RowFor(rs, id).Some? ==> RowFor(rs, id).value in rs && RowFor(rs, id).value.id == id
    ensures RowFor(rs, id).None? ==> forall r | r in rs :: r.id != id
    ensures StampFor(Stamps(rs), id) ==
            if RowFor(rs, id).Some? then Some(RowFor(rs, id).value.lww) else None
  {
    if rs == [] {
    } else {
      RowForIsPresent(rs[1..], id);
      assert Stamps(rs)[1..] == Stamps(rs[1..]);
    }
  }

  lemma {:induction false} StampForIsPresent(ws: seq<Stamp>, id: Id)
    ensures StampFor(ws, id).Some? ==> Stamp(id, StampFor(ws, id).value) in ws
    ensures StampFor(ws, id).None? ==> forall w | w in ws :: w.id != id
  {
    if ws == [] {
    } else {
      StampForIsPresent(ws[1..], id);
    }
  }

  function WriteOf(r: Option<Row>): seq<Write> {
    if r.Some? then [Put(r.value)] else []
  }

  /** The upsert couple takes each key one step, and only the keys it names. */
  lemma UpsertAndClearPerKey(db: Db, table: Table, rs: seq<Row>, k: Key)
    ensures CellOf(UpsertAndClear(db, table, rs), k) ==
            if k.table == table && RowFor(rs, k.id).Some?
            then Step(CellOf(db, k), Put(RowFor(rs, k.id).value))
            else CellOf(db, k)
  {
    RowForIsPresent(rs, k.id);
    if k.table == table && RowFor(rs, k.id).Some? {
      assert k in RowKeys(table, rs);
    }
  }

  lemma GuardedUpsertPerKey(db: Db, table: Table, rs: seq<Row>, k: Key)
    ensures CellOf(GuardedUpsert(db, table, rs), k) ==
            if k.table == table && RowFor(rs, k.id).Some?
            then Upserted(CellOf(db, k), RowFor(rs, k.id).value)
            else CellOf(db, k)
  {
    RowForIsPresent(rs, k.id);
    if k.table == table && RowFor(rs, k.id).Some? {
      assert k in RowKeys(table, rs);
    }
  }

  lemma DeleteRowsPerKey(db: Db, table: Table, ws: seq<Stamp>, k: Key)
    ensures CellOf(DeleteRows(db, table, ws), k) ==
            if k.table == table && StampFor(ws, k.id).Some?
            then Step(CellOf(db, k), Del(StampFor(ws, k.id).value))
            else CellOf(db, k)
  {
  }

  // ---------------------------------------------------------------------
  // Applying ops
  // ---------------------------------------------------------------------

  /** `apply_one`: a delete runs the one-row delete, an upsert the one-row
      couple, and a payload that does not decode is an error before any SQL. */
  function ApplyOne(db: Db, op: Op): Option<Db> {
    match op.data
    case Null => Some(DeleteRows(db, op.table, [Stamp(op.id, op.updatedAt)]))
    case Doc(row) => Some(UpsertAndClear(db, op.table, [row]))
    case Malformed(_) => None
  }

  function Applied(db: Db, op: Op): Db {
    var r := ApplyOne(db, op);
    if r.Some? then r.value else db
  }

  function Replay(db: Db, ops: seq<Op>): Db {
    if |ops| == 0 then db else Applied(Replay(db, ops[..|ops| - 1]), ops[|ops| - 1])
  }

  function WriteOn(k: Key, op: Op): seq<Write> {
    var d := Decoded(op);
    if d.Some? && d.value.0 == k then [d.value.1] else []
  }

  /** The writes a list of ops makes to one key, in order. */
  function WritesOn(k: Key, ops: seq<Op>): seq<Write> {
    if |ops| == 0 then [] else WritesOn(k, ops[..|ops| - 1]) + WriteOn(k, ops[|ops| - 1])
  }

  lemma WritesOnOne(k: Key, op: Op)
    ensures WritesOn(k, [op]) == WriteOn(k, op)
  {
    assert [op][..0] == [];
  }

  lemma AppliedPerKey(db: Db, op: Op, k: Key)
    ensures CellOf(Applied(db, op), k) == Run(CellOf(db, k), WriteOn(k, op))
  {
    var c := CellOf(db, k);
    assert forall w :: Run(c, [w]) == Step(c, w) by {
      forall w ensures Run(c, [w]) == Step(c, w) {
        assert [w][..0] == [];
      }
    }
    match op.data
    case Null =>
      DeleteRowsPerKey(db, op.table, [Stamp(op.id, op.updatedAt)], k);
    case Doc(row) =>
      UpsertAndClearPerKey(db, op.table, [row], k);
    case Malformed(_) =>
  }

  /** A replay is, on every key, the run of that key's writes. */
  lemma {:induction false} ReplayPerKey(db: Db, ops: seq<Op>, k: Key)
    ensures CellOf(Replay(db, ops), k) == Run(CellOf(db, k), WritesOn(k, ops))
  {
    if |ops| == 0 {
    } else {
      var init, op := ops[..|ops| - 1], ops[|ops| - 1];
      ReplayPerKey(db, init, k);
      AppliedPerKey(Replay(db, init), op, k);
      RunConcat(CellOf(db, k), WritesOn(k, init), WriteOn(k, op));
    }
  }

  lemma {:induction false} WritesOnConcat(k: Key, a: seq<Op>, b: seq<Op>)
    ensures WritesOn(k, a + b) == WritesOn(k, a) + WritesOn(k, b)
  {
    if |b| == 0 {
      assert a + b == a;
    } else {
      assert (a + b)[..|a + b| - 1] == a + b[..|b| - 1];
      WritesOnConcat(k, a, b[..|b| - 1]);
    }
  }

  lemma {:induction false} WritesOnMembers(k: Key, ops: seq<Op>, w: Write)
    ensures w in WritesOn(k, ops) <==> exists op | op in ops :: Decoded(op) == Some((k, w))
  {
    if |ops| == 0 {
    } else {
      var init, last := ops[..|ops| - 1], ops[|ops| - 1];
      WritesOnMembers(k, init, w);
      assert ops == init + [last];
      if exists op | op in init :: Decoded(op) == Some((k, w)) {
        var op :| op in init && Decoded(op) == Some((k, w));
        assert op in ops;
      }
      if Decoded(last) == Some((k, w)) {
        assert last in ops;
      }
    }
  }

  lemma {:induction false} ReplayConcat(db: Db, a: seq<Op>, b: seq<Op>)
    ensures Replay(db, a + b) == Replay(Replay(db, a), b)
  {
    if |b| == 0 {
      assert a + b == a;
    } else {
      assert (a + b)[..|a + b| - 1] == a + b[..|b| - 1];
      ReplayConcat(db, a, b[..|b| - 1]);
    }
  }

  // ---------------------------------------------------------------------
  // Blind deletes of a whole database
  // ---------------------------------------------------------------------

  /** The op is a delete newer than its key's clock that finds no live row. */
  predicate BlindOp(db: Db, op: Op) {
    op.data.Null? && Blind(CellOf(db, Key(op.table, op.id)), Del(op.updatedAt))
  }

  predicate NoBlindOps(db: Db, ops: seq<Op>) {
    |ops| == 0 || (NoBlindOps(db, ops[..|ops| - 1]) && !BlindOp(Replay(db, ops[..|ops| - 1]), ops[|ops| - 1]))
  }

  lemma {:induction false} NoBlindPerKey(db: Db, ops: seq<Op>, k: Key)
    requires NoBlindOps(db, ops)
    ensures NoBlind(CellOf(db, k), WritesOn(k, ops))
  {
    if |ops| == 0 {
    } else {
      var init, op := ops[..|ops| - 1], ops[|ops| - 1];
      NoBlindPerKey(db, init, k);
      ReplayPerKey(db, init, k);
      var c, w := CellOf(db, k), WriteOn(k, op);
      RunConcat(c, WritesOn(k, init), w);
      if w != [] {
        assert w[..0] == [];
        assert NoBlind(Run(c, WritesOn(k, init)), w[..0]);
      }
    }
  }

  lemma {:induction false} NoBlindOpsConcat(db: Db, a: seq<Op>, b: seq<Op>)
    ensures NoBlindOps(db, a + b) <==> NoBlindOps(db, a) && NoBlindOps(Replay(db, a), b)
  {
    if |b| == 0 {
      assert a + b == a;
    } else {
      var b' := b[..|b| - 1];
      assert (a + b)[..|a + b| - 1] == a + b';
      NoBlindOpsConcat(db, a, b');
      ReplayConcat(db, a, b');
    }
  }

  lemma ReplayDisjoint(db: Db, ops: seq<Op>)
    requires Disjoint(db)
    ensures Disjoint(Replay(db, ops))
  {
    forall k ensures Single(CellOf(Replay(db, ops), k)) {
      assert Single(CellOf(db, k));
      ReplayPerKey(db, ops, k);
      RunSingle(CellOf(db, k), WritesOn(k, ops));
    }
  }

  // ---------------------------------------------------------------------
  // Batches
  // ---------------------------------------------------------------------

  /** One statement couple per row, in list order. */
  function UpsertEach(db: Db, table: Table, rs: seq<Row>): Db {
    if |rs| == 0 then db
    else UpsertAndClear(UpsertEach(db, table, rs[..|rs| - 1]), table, [rs[|rs| - 1]])
  }

  function DeleteEach(db: Db, table: Table, ws: seq<Stamp>): Db {
    if |ws| == 0 then db
    else DeleteRows(DeleteEach(db, table, ws[..|ws| - 1]), table, [ws[|ws| - 1]])
  }

  lemma {:induction false} RowForSnoc(rs: seq<Row>, r: Row, id: Id)
    ensures RowFor(rs + [r], id) ==
            if RowFor(rs, id).Some? then RowFor(rs, id) else if r.id == id then Some(r) else None
  {
    if rs == [] {
    } else {
      assert (rs + [r])[1..] == rs[1..] + [r];
      RowForSnoc(rs[1..], r, id);
    }
  }

  lemma UpsertOnePerKey(db: Db, table: Table, r: Row, k: Key)
    ensures CellOf(UpsertAndClear(db, table, [r]), k) ==
            if k == Key(table, r.id) then Step(CellOf(db, k), Put(r)) else CellOf(db, k)
  {
    UpsertAndClearPerKey(db, table, [r], k);
  }

  lemma {:induction false} UpsertEachPerKey(db: Db, table: Table, rs: seq<Row>, k: Key)
    requires DistinctRows(rs)
    ensures CellOf(UpsertEach(db, table, rs), k) ==
            if k.table == table && RowFor(rs, k.id).Some?
            then Step(CellOf(db, k), Put(RowFor(rs, k.id).value))
            else CellOf(db, k)
  {
    if |rs| == 0 {
    } else {
      var init, r := rs[..|rs| - 1], rs[|rs| - 1];
      UpsertEachPerKey(db, table, init, k);
      UpsertOnePerKey(UpsertEach(db, table, init), table, r, k);
      assert rs == init + [r];
      RowForSnoc(init, r, k.id);
      assert RowFor(init, k.id).Some? ==> r.id != k.id by { RowForIsPresent(init, k.id); }
    }
  }

  lemma {:induction false} DistinctRowFor(rs: seq<Row>, r: Row)
    requires DistinctRows(rs) && r in rs
    ensures RowFor(rs, r.id) == Some(r)
  {
    if rs[0] == r {
    } else {
      var i :| 0 <= i < |rs| && rs[i] == r;
      assert rs[1..][i - 1] == r;
      DistinctRowFor(rs[1..], r);
    }
  }

  lemma {:induction false} DistinctStampFor(ws: seq<Stamp>, w: Stamp)
    requires DistinctStamps(ws) && w in ws
    ensures StampFor(ws, w.id) == Some(w.at)
  {
    if ws[0] == w {
    } else {
      var i :| 0 <= i < |ws| && ws[i] == w;
      assert ws[1..][i - 1] == w;
      DistinctStampFor(ws[1..], w);
    }
  }

  lemma {:induction false} StampForSnoc(ws: seq<Stamp>, w: Stamp, id: Id)
    ensures StampFor(ws + [w], id) ==
            if StampFor(ws, id).Some? then StampFor(ws, id) else if w.id == id then Some(w.at) else None
  {
    if ws == [] {
    } else {
      assert (ws + [w])[1..] == ws[1..] + [w];
      StampForSnoc(ws[1..], w, id);
    }
  }

  lemma {:induction false} DeleteEachPerKey(db: Db, table: Table, ws: seq<Stamp>, k: Key)
    requires DistinctStamps(ws)
    ensures CellOf(DeleteEach(db, table, ws), k) == CellOf(DeleteRows(db, table, ws), k)
  {
    DeleteRowsPerKey(db, table, ws, k);
    if |ws| == 0 {
    } else {
      var init, w := ws[..|ws| - 1], ws[|ws| - 1];
      DeleteEachPerKey(db, table, init, k);
      DeleteRowsPerKey(db, table, init, k);
      DeleteRowsPerKey(DeleteEach(db, table, init), table, [w], k);
      assert ws == init + [w];
      StampForSnoc(init, w, k.id);
      assert StampFor(init, k.id).Some? ==> w.id != k.id by { StampForIsPresent(init, k.id); }
    }
  }

  /** One n-row couple equals n one-row couples, in any order. */
  lemma {:induction false} BatchedUpsertIsOneAtATime(db: Db, table: Table, rs: seq<Row>, order: seq<Row>)
    requires DistinctRows(rs) && multiset(order) == multiset(rs)
    ensures UpsertEach(db, table, order) == UpsertAndClear(db, table, rs)
  {
    PermutedRowsDistinct(rs, order);
    forall k ensures CellOf(UpsertEach(db, table, order), k) == CellOf(UpsertAndClear(db, table, rs), k) {
      UpsertEachPerKey(db, table, order, k);
      UpsertAndClearPerKey(db, table, order, k);
      UpsertAndClearPerKey(db, table, rs, k);
      RowForIsPresent(rs, k.id);
      RowForIsPresent(order, k.id);
      if RowFor(rs, k.id).Some? {
        assert RowFor(rs, k.id).value in multiset(order);
        DistinctRowFor(order, RowFor(rs, k.id).value);
      }
      if RowFor(order, k.id).Some? {
        assert RowFor(order, k.id).value in multiset(rs);
      }
    }
    SameCells(UpsertEach(db, table, order), UpsertAndClear(db, table, rs));
  }

  lemma {:induction false} BatchedDeleteIsOneAtATime(db: Db, table: Table, ws: seq<Stamp>, order: seq<Stamp>)
    requires DistinctStamps(ws) && multiset(order) == multiset(ws)
    ensures DeleteEach(db, table, order) == DeleteRows(db, table, ws)
  {
    PermutedStampsDistinct(ws, order);
    forall k ensures CellOf(DeleteEach(db, table, order), k) == CellOf(DeleteRows(db, table, ws), k) {
      DeleteEachPerKey(db, table, order, k);
      DeleteRowsPerKey(db, table, order, k);
      DeleteRowsPerKey(db, table, ws, k);
      StampForIsPresent(ws, k.id);
      StampForIsPresent(order, k.id);
      if StampFor(ws, k.id).Some? {
        var v := Stamp(k.id, StampFor(ws, k.id).value);
        assert v in multiset(order);
        DistinctStampFor(order, v);
      }
      if StampFor(order, k.id).Some? {
        var v := Stamp(k.id, StampFor(order, k.id).value);
        assert v in multiset(ws);
      }
    }
    SameCells(DeleteEach(db, table, order), DeleteRows(db, table, ws));
  }

  /** Distinctness of ids does not depend on the order. */
  lemma PermutedRowsDistinct(rs: seq<Row>, order: seq<Row>)
    requires DistinctRows(rs) && multiset(order) == multiset(rs)
    ensures DistinctRows(order)
  {
    forall i, j | 0 <= i < j < |order| ensures order[i].id != order[j].id {
      if order[i].id == order[j].id {
        assert order[i] in multiset(rs) && order[j] in multiset(rs);
        DistinctRowFor(rs, order[i]);
        DistinctRowFor(rs, order[j]);
        TwiceCounts(order, i, j);
        assert multiset(rs)[order[i]] >= 2;
        OnceEach(rs, order[i]);
      }
    }
  }

  lemma PermutedStampsDistinct(ws: seq<Stamp>, order: seq<Stamp>)
    requires DistinctStamps(ws) && multiset(order) == multiset(ws)
    ensures DistinctStamps(order)
  {
    forall i, j | 0 <= i < j < |order| ensures order[i].id != order[j].id {
      if order[i].id == order[j].id {
        assert order[i] in multiset(ws) && order[j] in multiset(ws);
        DistinctStampFor(ws, order[i]);
        DistinctStampFor(ws, order[j]);
        TwiceCounts(order, i, j);
        assert multiset(ws)[order[i]] >= 2;
        OnceEach(ws, order[i]);
      }
    }
  }

  lemma TwiceCounts<T>(s: seq<T>, i: nat, j: nat)
    requires i < j < |s| && s[i] == s[j]
    ensures multiset(s)[s[i]] >= 2
  {
    assert s == s[..i] + [s[i]] + s[i + 1..j] + [s[j]] + s[j + 1..];
  }

  lemma {:induction false} OnceEach<T>(s: seq<T>, x: T)
    requires forall i, j | 0 <= i < j < |s| :: s[i] != s[j]
    ensures multiset(s)[x] <= 1
  {
    if |s| == 0 {
    } else {
      assert s == [s[0]] + s[1..];
      OnceEach(s[1..], x);
      if x == s[0] {
        assert x !in s[1..];
      }
    }
  }
}
