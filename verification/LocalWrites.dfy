/**
 The client's own writes: each row write emits its op and runs its statement at
 once, and the op comes back later in the stream.

 The statement of a local upsert is the guarded upsert alone, without the
 tombstone clear the appliers run after it, so a row written over an older
 tombstone leaves that tombstone behind until the echo arrives.
 */
module LocalWrites {
  import opened Protocol
  import opened Register
  import opened Store
  import opened Windows
  import opened Convergence

  datatype Statement =
    | UpsertStatement(table: Table, row: Row)
    | DeleteStatement(table: Table, id: Id, at: Ts)

  function Execute(db: Db, s: Statement): Db {
    match s
    case UpsertStatement(table, row) => GuardedUpsert(db, table, [row])
    case DeleteStatement(table, id, at) => DeleteRows(db, table, [Stamp(id, at)])
  }

  /** The ops a composite write accumulates. */
  class OpsBuffer {
    var ops: seq<Op>

    constructor ()
      ensures ops == []
    {
      ops := [];
    }

    /** `upsert_with_ops`: the op is stamped with the row's own time. */
    method UpsertWithOps(table: Table, row: Row) returns (step: Statement)
      modifies this
      ensures ops == old(ops) + [Op(table, row.id, Doc(row), row.lww)]
      ensures forall db :: Execute(db, step) == Local(db, ops[|ops| - 1])
    {
      var op := Op(table, row.id, Doc(row), row.lww);
      ops := ops + [op];
      step := UpsertStatement(table, row);
    }

    /** `delete_with_ops`: the op is stamped with the caller's clock. */
    method DeleteWithOps(table: Table, id: Id, now: Ts) returns (step: Statement)
      modifies this
      ensures ops == old(ops) + [Op(table, id, Null, now)]
      ensures forall db :: Execute(db, step) == Local(db, ops[|ops| - 1])
    {
      var op := Op(table, id, Null, now);
      ops := ops + [op];
      step := DeleteStatement(table, id, now);
    }
  }

  /** What the local statement of an op does. */
  function Local(db: Db, op: Op): Db {
    match op.data
    case Null => Execute(db, DeleteStatement(op.table, op.id, op.updatedAt))
    case Doc(row) => Execute(db, UpsertStatement(op.table, row))
    case Malformed(_) => db
  }

  function LocalRun(db: Db, mine: seq<Op>): Db {
    if |mine| == 0 then db else Local(LocalRun(db, mine[..|mine| - 1]), mine[|mine| - 1])
  }

  // ---------------------------------------------------------------------
  // One key
  // ---------------------------------------------------------------------

  function LocalCell(c: Cell, w: Write): Cell {
    match w
    case Put(r) => Upserted(c, r)
    case Del(at) => Deleted(c, at)
  }

  function LocalCells(c: Cell, ws: seq<Write>): Cell {
    if |ws| == 0 then c else LocalCell(LocalCells(c, ws[..|ws| - 1]), ws[|ws| - 1])
  }

  /** A tombstone beside a live row is older than the row. */
  predicate Tame(c: Cell) {
    c.row.Some? && c.tomb.Some? ==> c.tomb.value < c.row.value.lww
  }

  /** The key without such a leftover. */
  function Settled(c: Cell): Cell {
    if c.row.Some? && c.tomb.Some? then c.(tomb := None) else c
  }

  /** Leftovers are invisible: local and replayed writes move the settled key
      as replayed writes move a clean one. */
  lemma LeftoversAreInvisible(c: Cell, w: Write)
    requires Tame(c)
    ensures Tame(LocalCell(c, w)) && Settled(LocalCell(c, w)) == Step(Settled(c), w)
    ensures Tame(Step(c, w)) && Settled(Step(c, w)) == Step(Settled(c), w)
  {
  }

  lemma {:induction false} LocalCellsSettle(c: Cell, ws: seq<Write>)
    requires Tame(c)
    ensures Tame(LocalCells(c, ws)) && Settled(LocalCells(c, ws)) == Run(Settled(c), ws)
  {
    if |ws| == 0 {
    } else {
      LocalCellsSettle(c, ws[..|ws| - 1]);
      LeftoversAreInvisible(LocalCells(c, ws[..|ws| - 1]), ws[|ws| - 1]);
    }
  }

  lemma {:induction false} RunSettles(c: Cell, ws: seq<Write>)
    requires Tame(c)
    ensures Tame(Run(c, ws)) && Settled(Run(c, ws)) == Run(Settled(c), ws)
  {
    if |ws| == 0 {
    } else {
      RunSettles(c, ws[..|ws| - 1]);
      LeftoversAreInvisible(Run(c, ws[..|ws| - 1]), ws[|ws| - 1]);
    }
  }

  /** A leftover beside a row that was written here. */
  lemma {:induction false} LeftoverIsOwn(c: Cell, ws: seq<Write>)
    requires Single(c) && !Single(LocalCells(c, ws))
    ensures Put(LocalCells(c, ws).row.value) in ws
  {
    LocalCellsSettle(c, ws[..|ws| - 1]);
    if !Single(LocalCells(c, ws[..|ws| - 1])) {
      LeftoverIsOwn(c, ws[..|ws| - 1]);
    }
    assert ws == ws[..|ws| - 1] + [ws[|ws| - 1]];
  }

  /** ... goes when that row's own op is replayed. */
  lemma {:induction false} EchoClearsLeftover(c: Cell, ws: seq<Write>)
    requires Tame(c) && !Single(Run(c, ws))
    ensures !Single(c) && Run(c, ws).row == c.row && Put(c.row.value) !in ws
  {
    if |ws| == 0 {
    } else {
      var init, w := ws[..|ws| - 1], ws[|ws| - 1];
      RunSettles(c, init);
      if Single(Run(c, init)) {
        SqlAgreesWithReference(Run(c, init), w);
      } else {
        EchoClearsLeftover(c, init);
        assert ws == init + [w];
      }
    }
  }

  /** Writing locally and then replaying a stream that has the writes is
      replaying the writes and then the stream. */
  lemma EchoSettlesKey(c: Cell, mine: seq<Write>, tail: seq<Write>)
    requires Single(c) && forall w | w in mine :: w in tail
    ensures Run(LocalCells(c, mine), tail) == Run(c, mine + tail)
  {
    var d := LocalCells(c, mine);
    LocalCellsSettle(c, mine);
    RunSettles(d, tail);
    RunConcat(c, mine, tail);
    if !Single(Run(d, tail)) {
      EchoClearsLeftover(d, tail);
      LeftoverIsOwn(c, mine);
    }
  }

  // ---------------------------------------------------------------------
  // The database
  // ---------------------------------------------------------------------

  lemma LocalPerKey(db: Db, op: Op, k: Key)
    ensures CellOf(Local(db, op), k) == LocalCells(CellOf(db, k), WriteOn(k, op))
  {
    forall w ensures LocalCells(CellOf(db, k), [w]) == LocalCell(CellOf(db, k), w) {
      assert [w][..0] == [];
    }
    match op.data
    case Null =>
      DeleteRowsPerKey(db, op.table, [Stamp(op.id, op.updatedAt)], k);
    case Doc(row) =>
      assert RowKeys(op.table, [row]) == {Key(op.table, row.id)};
      assert [row][1..] == [] && RowFor([row], k.id) == if row.id == k.id then Some(row) else None;
    case Malformed(_) =>
  }

  lemma {:induction false} LocalCellsConcat(c: Cell, a: seq<Write>, b: seq<Write>)
    requires |b| <= 1
    ensures LocalCells(c, a + b) == LocalCells(LocalCells(c, a), b)
  {
    if |b| == 0 {
      assert a + b == a;
    } else {
      assert (a + b)[..|a|] == a && b[..0] == [];
    }
  }

  lemma {:induction false} LocalRunPerKey(db: Db, mine: seq<Op>, k: Key)
    ensures CellOf(LocalRun(db, mine), k) == LocalCells(CellOf(db, k), WritesOn(k, mine))
  {
    if |mine| == 0 {
    } else {
      var init, op := mine[..|mine| - 1], mine[|mine| - 1];
      LocalRunPerKey(db, init, k);
      LocalPerKey(LocalRun(db, init), op, k);
      LocalCellsConcat(CellOf(db, k), WritesOn(k, init), WriteOn(k, op));
    }
  }

  /** A local write is its op's effect exactly when the row is not written over
      an older tombstone; the rows are right either way. */
  lemma LocalWriteIsItsOpExactly(db: Db, op: Op)
    requires Disjoint(db)
    ensures Local(db, op) == Applied(db, op) <==>
            !(op.data.Doc? && var k := Key(op.table, op.data.row.id); k in db.tombs && db.tombs[k] < op.data.row.lww)
    ensures Local(db, op).rows == Applied(db, op).rows
  {
    var a, b := Local(db, op), Applied(db, op);
    forall k
      ensures CellOf(a, k).row == CellOf(b, k).row
      ensures CellOf(a, k) == CellOf(b, k) <==>
              !(op.data.Doc? && k == Key(op.table, op.data.row.id) && k in db.tombs && db.tombs[k] < op.data.row.lww)
    {
      LocalPerKey(db, op, k);
      AppliedPerKey(db, op, k);
      assert Single(CellOf(db, k));
      OneLocalWrite(CellOf(db, k), WriteOn(k, op));
    }
    SameRows(a, b);
    if forall k :: CellOf(a, k) == CellOf(b, k) { SameCells(a, b); }
  }

  lemma OneLocalWrite(c: Cell, ws: seq<Write>)
    requires Single(c) && |ws| <= 1
    ensures LocalCells(c, ws).row == Run(c, ws).row
    ensures LocalCells(c, ws) == Run(c, ws) <==>
            !(|ws| == 1 && ws[0].Put? && c.tomb.Some? && c.tomb.value < ws[0].row.lww)
  {
    if |ws| == 1 { assert ws[..0] == []; }
  }

  /** A replica that writes locally while its cursor is at `i` and then replays
      everything after `i`, its own ops among it, ends as if it had applied its
      ops before that replay. */
  lemma EchoSettles(ops: seq<Op>, i: nat, mine: seq<Op>)
    requires i <= |ops| && forall op | op in mine :: op in ops[i..]
    ensures Replay(LocalRun(Replay(EMPTY_DB, ops[..i]), mine), ops[i..]) ==
            Replay(EMPTY_DB, ops[..i] + (mine + ops[i..]))
  {
    var base, tail := Replay(EMPTY_DB, ops[..i]), ops[i..];
    ReplayDisjoint(EMPTY_DB, ops[..i]);
    ReplayConcat(EMPTY_DB, ops[..i], mine + tail);
    forall k ensures CellOf(Replay(LocalRun(base, mine), tail), k) == CellOf(Replay(base, mine + tail), k) {
      ReplayPerKey(LocalRun(base, mine), tail, k);
      LocalRunPerKey(base, mine, k);
      ReplayPerKey(base, mine + tail, k);
      WritesOnConcat(k, mine, tail);
      assert Single(CellOf(base, k));
      OwnWritesEchoed(k, mine, tail);
      EchoSettlesKey(CellOf(base, k), WritesOn(k, mine), WritesOn(k, tail));
    }
    SameCells(Replay(LocalRun(base, mine), tail), Replay(base, mine + tail));
  }

  lemma OwnWritesEchoed(k: Key, mine: seq<Op>, tail: seq<Op>)
    requires forall op | op in mine :: op in tail
    ensures forall w | w in WritesOn(k, mine) :: w in WritesOn(k, tail)
  {
    forall w | w in WritesOn(k, mine) ensures w in WritesOn(k, tail) {
      WritesOnMembers(k, mine, w);
      WritesOnMembers(k, tail, w);
    }
  }

  /** With the stream replayed op by op: the replica ends as the server exactly
      when every key's newest op also lands with the own ops applied early. */
  lemma EarlyWritesConverge(ops: seq<Op>, i: nat, mine: seq<Op>)
    requires i <= |ops| && forall op | op in mine :: op in ops[i..]
    requires TimesNameWrites(ops) && NewestOpsLand(ops)
    ensures Replay(LocalRun(Replay(EMPTY_DB, ops[..i]), mine), ops[i..]) == Replay(EMPTY_DB, ops) <==>
            NewestOpsLand(ops[..i] + (mine + ops[i..]))
  {
    EchoSettles(ops, i, mine);
    SameOpsEarly(ops, i, mine);
    ConvergeExactly(ops, ops[..i] + (mine + ops[i..]));
  }

  lemma SameOpsEarly(ops: seq<Op>, i: nat, mine: seq<Op>)
    requires i <= |ops| && forall op | op in mine :: op in ops[i..]
    ensures SameOps(ops, ops[..i] + (mine + ops[i..]))
  {
    assert ops == ops[..i] + ops[i..];
  }

  // ---------------------------------------------------------------------
  // Own writes between windows
  // ---------------------------------------------------------------------

  /** What happens to a replica: a write of its own, or a window of the stream. */
  datatype Turn = Own(op: Op) | Window(ops: seq<Op>)

  function Turned(db: Db, turns: seq<Turn>): Db {
    if |turns| == 0 then db
    else
      var before := Turned(db, turns[..|turns| - 1]);
      match turns[|turns| - 1]
      case Own(op) => Local(before, op)
      case Window(ops) => ApplyWindow(before, ops)
  }

  /** The stream, as the windows bring it. */
  function Stream(turns: seq<Turn>): seq<Op> {
    if |turns| == 0 then []
    else
      var before := Stream(turns[..|turns| - 1]);
      match turns[|turns| - 1]
      case Own(_) => before
      case Window(ops) => before + ops
  }

  /** Every own write comes back in a later window. */
  ghost predicate Echoed(turns: seq<Turn>) {
    forall i | 0 <= i < |turns| && turns[i].Own? ::
      exists j | i < j < |turns| :: turns[j].Window? && turns[i].op in turns[j].ops
  }

  /** The write a turn makes to a key: its own, or the window's newest. */
  function Made(k: Key, t: Turn): seq<Write> {
    match t
    case Own(op) => WriteOn(k, op)
    case Window(ops) => var w := Winner(WritesOn(k, ops)); if w.Some? then [w.value] else []
  }

  function AllMade(k: Key, turns: seq<Turn>): seq<Write> {
    if |turns| == 0 then [] else AllMade(k, turns[..|turns| - 1]) + Made(k, turns[|turns| - 1])
  }

  function TurnCell(c: Cell, k: Key, t: Turn): Cell {
    match t
    case Own(op) => LocalCells(c, WriteOn(k, op))
    case Window(ops) => WindowCell(c, k, ops)
  }

  function TurnCells(c: Cell, k: Key, turns: seq<Turn>): Cell {
    if |turns| == 0 then c else TurnCell(TurnCells(c, k, turns[..|turns| - 1]), k, turns[|turns| - 1])
  }

  lemma {:induction false} TurnedPerKey(db: Db, turns: seq<Turn>, k: Key)
    ensures CellOf(Turned(db, turns), k) == TurnCells(CellOf(db, k), k, turns)
  {
    if |turns| == 0 {
    } else {
      var init, before := turns[..|turns| - 1], Turned(db, turns[..|turns| - 1]);
      TurnedPerKey(db, init, k);
      match turns[|turns| - 1]
      case Own(op) => LocalPerKey(before, op, k);
      case Window(ops) => ApplyWindowPerKey(before, ops, k);
    }
  }

  lemma OneStep(c: Cell, w: Write)
    ensures Run(c, [w]) == Step(c, w) && LocalCells(c, [w]) == LocalCell(c, w)
  {
    assert [w][..0] == [];
  }

  lemma TurnSettles(c: Cell, k: Key, t: Turn)
    requires Tame(c)
    ensures Tame(TurnCell(c, k, t)) && Settled(TurnCell(c, k, t)) == Run(Settled(c), Made(k, t))
  {
    if Made(k, t) != [] {
      var w := Made(k, t)[0];
      OneStep(c, w);
      OneStep(Settled(c), w);
      LeftoversAreInvisible(c, w);
    }
  }

  /** Up to leftovers, the key is the run of what the turns made to it. */
  lemma {:induction false} TurnsSettle(c: Cell, k: Key, turns: seq<Turn>)
    requires Tame(c)
    ensures Tame(TurnCells(c, k, turns)) && Settled(TurnCells(c, k, turns)) == Run(Settled(c), AllMade(k, turns))
  {
    if |turns| == 0 {
    } else {
      var init, t := turns[..|turns| - 1], turns[|turns| - 1];
      TurnsSettle(c, k, init);
      TurnSettles(TurnCells(c, k, init), k, t);
      RunConcat(Settled(c), AllMade(k, init), Made(k, t));
    }
  }

  /** An own upsert of `r`, with nothing as new in the windows after it. */
  ghost predicate Unechoed(k: Key, turns: seq<Turn>, j: nat, r: Row)
    requires j < |turns|
  {
    && turns[j].Own? && WriteOn(k, turns[j].op) == [Put(r)]
    && forall i | j < i < |turns| && turns[i].Window? :: forall w | w in Made(k, turns[i]) :: w.Time() < r.lww
  }

  /** Two writes the stream has for a key with one time are one. */
  ghost predicate TimesNameOn(k: Key, turns: seq<Turn>) {
    TimeNamesWrite(AllMade(k, turns))
  }

  /** A leftover that one more turn leaves in place. */
  lemma LeftoverStays(c: Cell, k: Key, t: Turn)
    requires Tame(c) && !Single(TurnCell(c, k, t)) && (t.Own? ==> TurnCell(c, k, t).row == c.row)
    ensures !Single(c) && TurnCell(c, k, t).row == c.row
    ensures t.Window? ==> forall w | w in Made(k, t) :: w.Time() < c.row.value.lww || w == Del(c.row.value.lww)
  {
    if Made(k, t) != [] { OneStep(c, Made(k, t)[0]); }
  }

  lemma OwnPuts(c: Cell, k: Key, op: Op)
    requires Tame(c) && !Single(LocalCells(c, WriteOn(k, op))) && LocalCells(c, WriteOn(k, op)).row != c.row
    ensures WriteOn(k, op) == [Put(LocalCells(c, WriteOn(k, op)).row.value)]
  {
    OneStep(c, WriteOn(k, op)[0]);
  }

  /** A leftover at the end stands beside a row written here and not echoed
      since. */
  lemma {:induction false} LeftoverIsUnechoed(c: Cell, k: Key, turns: seq<Turn>) returns (j: nat)
    requires Single(c) && !Single(TurnCells(c, k, turns)) && TimesNameOn(k, turns)
    ensures j < |turns| && Unechoed(k, turns, j, TurnCells(c, k, turns).row.value)
  {
    hide Unechoed, TimesNameOn;
    var init, t, end := turns[..|turns| - 1], turns[|turns| - 1], TurnCells(c, k, turns);
    var d := TurnCells(c, k, init);
    assert turns == init + [t];
    TurnsSettle(c, k, init);
    if t.Own? && end.row != d.row {
      j := |init|;
      OwnPuts(d, k, t.op);
      LastIsUnechoed(k, init, t, end.row.value);
    } else {
      LeftoverStays(d, k, t);
      FewerNamesWrites(k, init, t);
      j := LeftoverIsUnechoed(c, k, init);
      OneMoreTurn(k, init, t, j, end.row.value);
    }
  }

  lemma LastIsUnechoed(k: Key, init: seq<Turn>, t: Turn, r: Row)
    requires t.Own? && WriteOn(k, t.op) == [Put(r)]
    ensures Unechoed(k, init + [t], |init|, r)
  {
  }

  lemma FewerNamesWrites(k: Key, init: seq<Turn>, t: Turn)
    requires TimesNameOn(k, init + [t])
    ensures TimesNameOn(k, init)
  {
    assert (init + [t])[..|init|] == init;
    assert AllMade(k, init + [t]) == AllMade(k, init) + Made(k, t);
  }

  lemma OneMoreTurn(k: Key, init: seq<Turn>, t: Turn, j: nat, r: Row)
    requires TimesNameOn(k, init + [t]) && j < |init| && Unechoed(k, init, j, r)
    requires t.Window? ==> forall w | w in Made(k, t) :: w.Time() < r.lww || w == Del(r.lww)
    ensures Unechoed(k, init + [t], j, r)
  {
    var turns := init + [t];
    if t.Window? { NoDeleteAtItsTime(k, init, t, j, r); }
    forall i | j < i < |turns| && turns[i].Window? ensures forall w | w in Made(k, turns[i]) :: w.Time() < r.lww {
      if i < |init| { assert turns[i] == init[i]; }
    }
  }

  lemma NoDeleteAtItsTime(k: Key, init: seq<Turn>, t: Turn, j: nat, r: Row)
    requires TimesNameOn(k, init + [t]) && j < |init| && Put(r) in Made(k, init[j])
    ensures Del(r.lww) !in Made(k, t)
  {
    assert (init + [t])[..|init|] == init;
    assert AllMade(k, init + [t]) == AllMade(k, init) + Made(k, t);
    MadeIsIn(k, init, j, Put(r));
    assert Put(r) in AllMade(k, init + [t]);
    assert Del(r.lww) !in AllMade(k, init + [t]);
  }

  lemma {:induction false} MadeIsIn(k: Key, turns: seq<Turn>, j: nat, w: Write)
    requires j < |turns| && w in Made(k, turns[j])
    ensures w in AllMade(k, turns)
  {
    if j == |turns| - 1 {
    } else {
      assert turns[..|turns| - 1][j] == turns[j];
      MadeIsIn(k, turns[..|turns| - 1], j, w);
    }
  }

  /** Every echo brings the key's newest write of its window at least as far. */
  lemma EchoReaches(k: Key, turns: seq<Turn>, j: nat, r: Row)
    requires j < |turns| && Echoed(turns)
    ensures !Unechoed(k, turns, j, r)
  {
    if turns[j].Own? && WriteOn(k, turns[j].op) == [Put(r)] {
      var i :| j < i < |turns| && turns[i].Window? && turns[j].op in turns[i].ops;
      WritesOnMembers(k, turns[i].ops, Put(r));
      WinnerIsFirstNewest(WritesOn(k, turns[i].ops));
      assert Winner(WritesOn(k, turns[i].ops)).value in Made(k, turns[i]);
    }
  }

  /** So with every own write echoed, no leftover is left. */
  lemma EchoedTurnsSettle(c: Cell, k: Key, turns: seq<Turn>)
    requires Single(c) && Echoed(turns) && TimesNameOn(k, turns)
    ensures TurnCells(c, k, turns) == Run(c, AllMade(k, turns))
  {
    TurnsSettle(c, k, turns);
    if !Single(TurnCells(c, k, turns)) {
      var j := LeftoverIsUnechoed(c, k, turns);
      EchoReaches(k, turns, j, TurnCells(c, k, turns).row.value);
    }
  }

  lemma {:induction false} StreamHas(turns: seq<Turn>, i: nat, op: Op)
    requires i < |turns| && turns[i].Window? && op in turns[i].ops
    ensures op in Stream(turns)
  {
    if i == |turns| - 1 {
    } else {
      StreamHas(turns[..|turns| - 1], i, op);
    }
  }

  lemma {:induction false} MadeSomewhere(k: Key, turns: seq<Turn>, w: Write) returns (j: nat)
    requires w in AllMade(k, turns)
    ensures j < |turns| && w in Made(k, turns[j])
  {
    if w in Made(k, turns[|turns| - 1]) {
      j := |turns| - 1;
    } else {
      j := MadeSomewhere(k, turns[..|turns| - 1], w);
    }
  }

  /** What the turns make of a key is in the stream, ... */
  lemma MadeIsStreamed(k: Key, turns: seq<Turn>, w: Write)
    requires Echoed(turns) && w in AllMade(k, turns)
    ensures w in WritesOn(k, Stream(turns))
  {
    var j := MadeSomewhere(k, turns, w);
    match turns[j]
    case Own(op) =>
      var i :| j < i < |turns| && turns[i].Window? && op in turns[i].ops;
      StreamHas(turns, i, op);
      WritesOnMembers(k, Stream(turns), w);
    case Window(ops) =>
      WinnerIsFirstNewest(WritesOn(k, ops));
      WritesOnMembers(k, ops, w);
      var op :| op in ops && Decoded(op) == Some((k, w));
      StreamHas(turns, j, op);
      WritesOnMembers(k, Stream(turns), w);
  }

  /** ... and reaches as far. */
  lemma {:induction false} MadeReaches(k: Key, turns: seq<Turn>, w: Write)
    requires w in WritesOn(k, Stream(turns))
    ensures exists m | m in AllMade(k, turns) :: w.Time() <= m.Time()
  {
    var init, t := turns[..|turns| - 1], turns[|turns| - 1];
    if w in WritesOn(k, Stream(init)) {
      MadeReaches(k, init, w);
      var m :| m in AllMade(k, init) && w.Time() <= m.Time();
      assert m in AllMade(k, turns);
    } else {
      assert t.Window?;
      WritesOnConcat(k, Stream(init), t.ops);
      WinnerIsFirstNewest(WritesOn(k, t.ops));
      assert Winner(WritesOn(k, t.ops)).value in AllMade(k, turns);
    }
  }

  lemma SameNewest(k: Key, turns: seq<Turn>)
    requires Echoed(turns) && TimeNamesWrite(WritesOn(k, Stream(turns)))
    ensures TimesNameOn(k, turns) && Winner(AllMade(k, turns)) == Winner(WritesOn(k, Stream(turns)))
  {
    var made, all := AllMade(k, turns), WritesOn(k, Stream(turns));
    forall w | w in made ensures w in all {
      MadeIsStreamed(k, turns, w);
    }
    if |made| > 0 {
      WinnerIsFirstNewest(made);
      assert Winner(made).value in all;
    }
    if |all| > 0 {
      WinnerIsFirstNewest(all);
      MadeReaches(k, turns, Winner(all).value);
    }
  }

  /** The newest of the writes decides: it is covered from the start, or lands. */
  ghost predicate Decides(c: Cell, ws: seq<Write>) {
    |ws| == 0 || !Behind(c, Winner(ws).value.Time()) || NewestLands(c, ws)
  }

  lemma DecidesExactly(c: Cell, ws: seq<Write>)
    requires Single(c)
    ensures Decides(c, ws) <==> Run(c, ws) == Outcome(c, Winner(ws))
  {
    if |ws| > 0 { NewestWriteDecidesExactly(c, ws); }
  }

  lemma TurnedKey(base: Db, turns: seq<Turn>, k: Key)
    requires Disjoint(base) && Echoed(turns) && TimesNameWrites(Stream(turns))
    requires Decides(CellOf(base, k), WritesOn(k, Stream(turns)))
    ensures CellOf(Turned(base, turns), k) == CellOf(Replay(base, Stream(turns)), k) <==>
            Decides(CellOf(base, k), AllMade(k, turns))
  {
    var c := CellOf(base, k);
    assert Single(c);
    TimesNameKey(k, Stream(turns));
    SameNewest(k, turns);
    TurnedPerKey(base, turns, k);
    EchoedTurnsSettle(c, k, turns);
    ReplayPerKey(base, Stream(turns), k);
    DecidesExactly(c, WritesOn(k, Stream(turns)));
    DecidesExactly(c, AllMade(k, turns));
  }

  lemma TimesNameKey(k: Key, ops: seq<Op>)
    requires TimesNameWrites(ops)
    ensures TimeNamesWrite(WritesOn(k, ops))
  {
    forall v, w | v in WritesOn(k, ops) && w in WritesOn(k, ops) && v.Time() == w.Time() ensures v == w {
      WritesOnMembers(k, ops, v);
      WritesOnMembers(k, ops, w);
      var p :| p in ops && Decoded(p) == Some((k, v));
      var q :| q in ops && Decoded(q) == Some((k, w));
    }
  }

  /** Optimistic replicas converge: a replica that was the server, writes
      whenever it likes between the windows of the stream, and gets each of its
      writes back in a later window, ends as the server exactly when each key's
      newest write also decides among what the replica made of the key. */
  lemma {:induction false} OptimisticReplicaConverges(ops: seq<Op>, n: nat, turns: seq<Turn>)
    requires n <= |ops| && Stream(turns) == ops[n..] && Echoed(turns) && TimesNameWrites(ops[n..])
    requires forall k :: Decides(CellAt(ops, k, n), WritesOn(k, ops[n..]))
    ensures Turned(Replay(EMPTY_DB, ops[..n]), turns) == Replay(EMPTY_DB, ops) <==>
            forall k :: Decides(CellAt(ops, k, n), AllMade(k, turns))
  {
    var base := Replay(EMPTY_DB, ops[..n]);
    var end, server := Turned(base, turns), Replay(EMPTY_DB, ops);
    ReplayDisjoint(EMPTY_DB, ops[..n]);
    assert Replay(base, ops[n..]) == server by {
      assert ops == ops[..n] + ops[n..];
      ReplayConcat(EMPTY_DB, ops[..n], ops[n..]);
    }
    forall k ensures CellOf(end, k) == CellOf(server, k) <==> Decides(CellAt(ops, k, n), AllMade(k, turns)) {
      assert Decides(CellAt(ops, k, n), WritesOn(k, ops[n..]));
      TurnedKey(base, turns, k);
    }
    SameOrNot(end, server);
  }

  /** A key whose newest write is an upsert always ends right. */
  lemma UpsertsDecide(c: Cell, ws: seq<Write>)
    requires |ws| > 0 && Winner(ws).value.Put?
    ensures Decides(c, ws)
  {
    UpsertLands(c, ws);
  }
}
