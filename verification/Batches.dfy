/**
 The statements the client makes of one table's ops, and what the first few of
 them leave when a later one fails: chunked deletes, then per chunk of upserts a
 guarded upsert and a tombstone clear.
 */
module Batches {
  import opened Protocol
  import opened Register
  import opened Store
  import opened Bootstrap
  import opened Windows
  import Placeholders

  /** Pairs a delete statement binds at most. */
  const PAIRS: nat := Placeholders.MAX_PARAMS / 2

  function Min(a: nat, b: nat): nat { if a < b then a else b }

  /** Statements of `size` rows for `n` rows. */
  function Chunks(n: nat, size: nat): nat
    requires size > 0
  {
    if n == 0 then 0 else 1 + Chunks(n - Min(size, n), size)
  }

  /** Rows, of `n`, that the first `f` such statements cover. */
  function Covered(f: nat, size: nat, n: nat): (m: nat)
    ensures m <= n
  {
    if f == 0 then 0 else Min(n, Covered(f - 1, size, n) + size)
  }

  /** After `f` statements `i` rows are covered; one more follows. */
  lemma NextChunk(f: nat, size: nat, n: nat, i: nat)
    requires size > 0 && i < n && i == Covered(f, size, n) && Chunks(n, size) == f + Chunks(n - i, size)
    ensures i + Min(size, n - i) == Covered(f + 1, size, n)
    ensures f < Chunks(n, size) == f + 1 + Chunks(n - (i + Min(size, n - i)), size)
  {
  }

  lemma {:induction false} MoreCover(f: nat, size: nat, n: nat)
    requires size > 0
    ensures Covered(f + 1, size, n) == if n == 0 then 0 else Min(size, n) + Covered(f, size, n - Min(size, n))
  {
    if f == 0 {
    } else {
      MoreCover(f - 1, size, n);
    }
  }

  /** `f` statements cover `f * size` rows, or all there are. */
  lemma {:induction false} CoveredIs(f: nat, size: nat, n: nat)
    ensures Covered(f, size, n) == Min(n, f * size)
  {
    if f == 0 {
    } else {
      CoveredIs(f - 1, size, n);
      assert (f - 1) * size + size == f * size;
    }
  }

  /** As many statements as cover all rows, and no more. */
  lemma {:induction false} ChunksExactly(n: nat, size: nat, f: nat)
    requires size > 0
    ensures Chunks(n, size) <= f <==> n <= f * size
  {
    if n == 0 {
    } else if f == 0 {
    } else {
      ChunksExactly(n - Min(size, n), size, f - 1);
      assert (f - 1) * size + size == f * size;
    }
  }

  /** Enough statements cover all rows. */
  lemma {:induction false} ChunksCover(n: nat, size: nat, f: nat)
    requires size > 0 && Chunks(n, size) <= f
    ensures Covered(f, size, n) == n
  {
    if n == 0 {
    } else {
      MoreCover(f - 1, size, n);
      ChunksCover(n - Min(size, n), size, f - 1);
    }
  }

  // ---------------------------------------------------------------------
  // What a table's ops become
  // ---------------------------------------------------------------------

  /** The keys of one table's decodable ops, as first touched. */
  function Touched(ops: seq<Op>): seq<Id> {
    if |ops| == 0 then []
    else
      var before, d := Touched(ops[..|ops| - 1]), Decoded(ops[|ops| - 1]);
      if d.None? || d.value.0.id in before then before else before + [d.value.0.id]
  }

  /** Each touched key's newest write. */
  function Survivors(table: Table, ops: seq<Op>): map<Id, Write> {
    map id | id in Touched(ops) && Winner(WritesOn(Key(table, id), ops)).Some?
      :: Winner(WritesOn(Key(table, id), ops)).value
  }

  function DeletesIn(ids: seq<Id>, last: map<Id, Write>): seq<Stamp> {
    if |ids| == 0 then []
    else
      var id := ids[|ids| - 1];
      DeletesIn(ids[..|ids| - 1], last) + if id in last && last[id].Del? then [Stamp(id, last[id].at)] else []
  }

  function UpsertsIn(ids: seq<Id>, last: map<Id, Write>): seq<Row> {
    if |ids| == 0 then []
    else
      var id := ids[|ids| - 1];
      UpsertsIn(ids[..|ids| - 1], last) + if id in last && last[id].Put? then [last[id].row] else []
  }

  function DeletesOf(table: Table, ops: seq<Op>): seq<Stamp> {
    DeletesIn(Touched(ops), Survivors(table, ops))
  }

  function UpsertsOf(table: Table, ops: seq<Op>): seq<Row> {
    UpsertsIn(Touched(ops), Survivors(table, ops))
  }

  /** How many statements that is. */
  function Statements(table: Table, ops: seq<Op>, columns: nat): nat
    requires columns > 0
  {
    Chunks(|DeletesOf(table, ops)|, PAIRS) + 2 * Chunks(|UpsertsOf(table, ops)|, Placeholders.ChunkRows(columns))
  }

  // ---------------------------------------------------------------------
  // The state after some of them
  // ---------------------------------------------------------------------

  /** After the first `g` upsert statements. */
  function AfterUpserts(db: Db, table: Table, rs: seq<Row>, size: nat, g: nat): Db {
    var i, j := Covered(g / 2, size, |rs|), Covered(g / 2 + 1, size, |rs|);
    var mid := UpsertEach(db, table, rs[..i]);
    if g % 2 == 1 then GuardedUpsert(mid, table, rs[i..j]) else mid
  }

  /** After the first `g` of all. */
  function AfterStatements(db: Db, table: Table, ops: seq<Op>, columns: nat, g: nat): Db
    requires columns > 0
  {
    var deletes, upserts := DeletesOf(table, ops), UpsertsOf(table, ops);
    var n := Chunks(|deletes|, PAIRS);
    if g < n then DeleteEach(db, table, deletes[..Covered(g, PAIRS, |deletes|)])
    else AfterUpserts(DeleteEach(db, table, deletes), table, upserts, Placeholders.ChunkRows(columns), g - n)
  }

  // ---------------------------------------------------------------------
  // Facts about the lists
  // ---------------------------------------------------------------------

  ghost predicate DistinctIds(ids: seq<Id>) {
    forall i, j | 0 <= i < j < |ids| :: ids[i] != ids[j]
  }

  lemma {:induction false} TouchedFacts(ops: seq<Op>)
    ensures DistinctIds(Touched(ops))
    ensures forall op | op in ops && Applyable(op) :: Decoded(op).value.0.id in Touched(ops)
  {
    if |ops| == 0 {
    } else {
      var init, op := ops[..|ops| - 1], ops[|ops| - 1];
      TouchedFacts(init);
      assert ops == init + [op];
    }
  }

  lemma {:induction false} DeletesListed(ids: seq<Id>, last: map<Id, Write>)
    requires DistinctIds(ids)
    ensures DistinctStamps(DeletesIn(ids, last)) && forall w | w in DeletesIn(ids, last) :: w.id in ids
  {
    if |ids| == 0 {
    } else {
      DeletesListed(ids[..|ids| - 1], last);
      assert ids == ids[..|ids| - 1] + [ids[|ids| - 1]];
    }
  }

  lemma {:induction false} DeletesFor(ids: seq<Id>, last: map<Id, Write>, id: Id)
    requires DistinctIds(ids)
    ensures StampFor(DeletesIn(ids, last), id) ==
            if id in ids && id in last && last[id].Del? then Some(last[id].at) else None
  {
    if |ids| == 0 {
    } else {
      var init, x := ids[..|ids| - 1], ids[|ids| - 1];
      DeletesFor(init, last, id);
      assert ids == init + [x] && x !in init;
      if x in last && last[x].Del? {
        StampForSnoc(DeletesIn(init, last), Stamp(x, last[x].at), id);
      } else {
        assert DeletesIn(ids, last) == DeletesIn(init, last);
      }
    }
  }

  ghost predicate OwnRows(last: map<Id, Write>) {
    forall x | x in last && last[x].Put? :: last[x].row.id == x
  }

  lemma {:induction false} UpsertsListed(ids: seq<Id>, last: map<Id, Write>)
    requires DistinctIds(ids) && OwnRows(last)
    ensures DistinctRows(UpsertsIn(ids, last)) && forall r | r in UpsertsIn(ids, last) :: r.id in ids
  {
    if |ids| == 0 {
    } else {
      UpsertsListed(ids[..|ids| - 1], last);
      assert ids == ids[..|ids| - 1] + [ids[|ids| - 1]];
    }
  }

  lemma {:induction false} UpsertsFor(ids: seq<Id>, last: map<Id, Write>, id: Id)
    requires DistinctIds(ids) && OwnRows(last)
    ensures RowFor(UpsertsIn(ids, last), id) ==
            if id in ids && id in last && last[id].Put? then Some(last[id].row) else None
  {
    if |ids| == 0 {
    } else {
      var init, x := ids[..|ids| - 1], ids[|ids| - 1];
      UpsertsFor(init, last, id);
      assert ids == init + [x] && x !in init;
      if x in last && last[x].Put? {
        RowForSnoc(UpsertsIn(init, last), last[x].row, id);
      } else {
        assert UpsertsIn(ids, last) == UpsertsIn(init, last);
      }
    }
  }

  /** Only touched keys have a newest write, which is of that key. */
  lemma SurvivorOf(table: Table, ops: seq<Op>, id: Id)
    requires forall op | op in ops :: op.table == table
    ensures var w := Winner(WritesOn(Key(table, id), ops));
            && (w.Some? <==> id in Survivors(table, ops))
            && (w.Some? ==> Survivors(table, ops)[id] == w.value && id in Touched(ops)
                            && (w.value.Put? ==> w.value.row.id == id))
  {
    var k := Key(table, id);
    TouchedFacts(ops);
    if Winner(WritesOn(k, ops)).Some? {
      WinnerIsFirstNewest(WritesOn(k, ops));
      WritesOnMembers(k, ops, Winner(WritesOn(k, ops)).value);
    }
  }

  /** On each key, the lists hold its newest write. */
  lemma ListsFor(table: Table, ops: seq<Op>, id: Id)
    requires forall op | op in ops :: op.table == table
    ensures var w := Winner(WritesOn(Key(table, id), ops));
            && StampFor(DeletesOf(table, ops), id) == (if w.Some? && w.value.Del? then Some(w.value.at) else None)
            && RowFor(UpsertsOf(table, ops), id) == (if w.Some? && w.value.Put? then Some(w.value.row) else None)
    ensures DistinctStamps(DeletesOf(table, ops)) && DistinctRows(UpsertsOf(table, ops))
  {
    TouchedFacts(ops);
    SurvivorOf(table, ops, id);
    forall x | x in Survivors(table, ops) && Survivors(table, ops)[x].Put?
      ensures Survivors(table, ops)[x].row.id == x
    {
      SurvivorOf(table, ops, x);
    }
    DeletesListed(Touched(ops), Survivors(table, ops));
    DeletesFor(Touched(ops), Survivors(table, ops), id);
    UpsertsListed(Touched(ops), Survivors(table, ops));
    UpsertsFor(Touched(ops), Survivors(table, ops), id);
  }

  lemma {:induction false} StampForPrefix(ws: seq<Stamp>, n: nat, id: Id)
    requires n <= |ws|
    ensures StampFor(ws[..n], id).Some? ==> StampFor(ws[..n], id) == StampFor(ws, id)
  {
    if n == 0 {
    } else {
      assert ws[..n][1..] == ws[1..][..n - 1];
      StampForPrefix(ws[1..], n - 1, id);
    }
  }

  lemma {:induction false} RowForPrefix(rs: seq<Row>, n: nat, id: Id)
    requires n <= |rs|
    ensures RowFor(rs[..n], id).Some? ==> RowFor(rs[..n], id) == RowFor(rs, id)
  {
    if n == 0 {
    } else {
      assert rs[..n][1..] == rs[1..][..n - 1];
      RowForPrefix(rs[1..], n - 1, id);
    }
  }

  lemma RowForSlice(rs: seq<Row>, i: nat, j: nat, id: Id)
    requires DistinctRows(rs) && i <= j <= |rs|
    ensures RowFor(rs[i..j], id).Some? ==> RowFor(rs[i..j], id) == RowFor(rs, id)
  {
    RowForIsPresent(rs[i..j], id);
    if RowFor(rs[i..j], id).Some? {
      DistinctRowFor(rs, RowFor(rs[i..j], id).value);
    }
  }

  // ---------------------------------------------------------------------
  // Halfway through a window
  // ---------------------------------------------------------------------

  /** A key the window has not reached, has reached, or has upserted without the
      tombstone clear yet. */
  predicate MidCell(c: Cell, d: Cell, w: Option<Write>) {
    || d == c
    || (w.Some? && (d == Step(c, w.value) || (w.value.Put? && d == Upserted(c, w.value.row))))
  }

  ghost predicate Midway(before: Db, now: Db, ops: seq<Op>) {
    forall k :: MidCell(CellOf(before, k), CellOf(now, k), Winner(WritesOn(k, ops)))
  }

  lemma AfterUpsertsPerKey(db: Db, table: Table, rs: seq<Row>, size: nat, g: nat, k: Key)
    requires DistinctRows(rs)
    ensures var c, d := CellOf(db, k), CellOf(AfterUpserts(db, table, rs, size, g), k);
            || d == c
            || (k.table == table && RowFor(rs, k.id).Some?
                && var r := RowFor(rs, k.id).value; (d == Step(c, Put(r)) || d == Upserted(c, r)))
  {
    var i, j := Covered(g / 2, size, |rs|), Covered(g / 2 + 1, size, |rs|);
    var mid := UpsertEach(db, table, rs[..i]);
    UpsertEachPerKey(db, table, rs[..i], k);
    RowForPrefix(rs, i, k.id);
    if g % 2 == 1 {
      GuardedUpsertPerKey(mid, table, rs[i..j], k);
      RowForSlice(rs, i, j, k.id);
      OnlyOnce(rs, i, j, k.id);
    }
  }

  lemma OnlyOnce(rs: seq<Row>, i: nat, j: nat, id: Id)
    requires DistinctRows(rs) && i <= j <= |rs|
    ensures RowFor(rs[..i], id).None? || RowFor(rs[i..j], id).None?
  {
    RowForIsPresent(rs[..i], id);
    RowForIsPresent(rs[i..j], id);
  }

  lemma DeletePrefixPerKey(db: Db, table: Table, ws: seq<Stamp>, n: nat, k: Key)
    requires DistinctStamps(ws) && n <= |ws|
    ensures var c, d := CellOf(db, k), CellOf(DeleteEach(db, table, ws[..n]), k);
            || d == c
            || (k.table == table && StampFor(ws, k.id).Some? && d == Step(c, Del(StampFor(ws, k.id).value)))
  {
    DeleteEachPerKey(db, table, ws[..n], k);
    DeleteRowsPerKey(db, table, ws[..n], k);
    StampForPrefix(ws, n, k.id);
  }

  /** Wherever the statements stop, the table is halfway through its window, and
      the other tables are as they were. */
  lemma {:induction false} StatementsLeaveMidway(db: Db, table: Table, ops: seq<Op>, columns: nat, g: nat, k: Key)
    requires columns > 0 && forall op | op in ops :: op.table == table
    ensures var now := AfterStatements(db, table, ops, columns, g);
            if k.table == table then MidCell(CellOf(db, k), CellOf(now, k), Winner(WritesOn(k, ops)))
            else CellOf(now, k) == CellOf(db, k)
  {
    hide AfterUpserts, DeletesOf, UpsertsOf, DeleteEach, Chunks, Covered, Placeholders.ChunkRows;
    var deletes, upserts, size := DeletesOf(table, ops), UpsertsOf(table, ops), Placeholders.ChunkRows(columns);
    ListsFor(table, ops, k.id);
    assert k.table == table ==> k == Key(table, k.id);
    if g < Chunks(|deletes|, PAIRS) {
      DeletePrefixPerKey(db, table, deletes, Covered(g, PAIRS, |deletes|), k);
    } else {
      var mid, rest := DeleteEach(db, table, deletes), g - Chunks(|deletes|, PAIRS);
      assert CellOf(mid, k) == CellOf(DeleteEach(db, table, deletes[..|deletes|]), k) by {
        assert deletes[..|deletes|] == deletes;
      }
      DeletePrefixPerKey(db, table, deletes, |deletes|, k);
      AfterUpsertsPerKey(mid, table, upserts, size, rest, k);
    }
  }

  // ---------------------------------------------------------------------
  // The retry
  // ---------------------------------------------------------------------

  lemma RetryCell(c: Cell, d: Cell, w: Write)
    requires MidCell(c, d, Some(w))
    ensures Step(d, w) == Step(c, w)
  {
  }

  /** The cursor stayed, so the window comes again: applied from halfway it ends
      as if nothing had failed. */
  lemma RetryHeals(before: Db, now: Db, ops: seq<Op>)
    requires Midway(before, now, ops)
    ensures ApplyWindow(now, ops) == ApplyWindow(before, ops)
  {
    var a, b := ApplyWindow(now, ops), ApplyWindow(before, ops);
    forall k ensures CellOf(a, k) == CellOf(b, k) {
      RetryKey(before, now, ops, k);
    }
    SameCells(a, b);
  }

  lemma RetryKey(before: Db, now: Db, ops: seq<Op>, k: Key)
    requires MidCell(CellOf(before, k), CellOf(now, k), Winner(WritesOn(k, ops)))
    ensures CellOf(ApplyWindow(now, ops), k) == CellOf(ApplyWindow(before, ops), k)
  {
    hide ApplyWindow, MidCell;
    ApplyWindowPerKey(now, ops, k);
    ApplyWindowPerKey(before, ops, k);
    var w := Winner(WritesOn(k, ops));
    if w.Some? {
      RetryCell(CellOf(before, k), CellOf(now, k), w.value);
    } else {
      NothingToRetry(CellOf(before, k), CellOf(now, k));
    }
  }

  lemma NothingToRetry(c: Cell, d: Cell)
    requires MidCell(c, d, None)
    ensures d == c
  {
  }

  lemma RetryMoreCell(c: Cell, d: Cell, w: Option<Write>, v: Write)
    requires Single(c) && MidCell(c, d, w) && (w == Some(v) || (w.Some? ==> w.value.Time() < v.Time()))
    ensures Step(d, v).row == Step(c, v).row
    ensures Step(d, v) == Step(c, v) <==> (Blind(c, v) <==> Blind(d, v))
  {
  }

  lemma NewerOrSame(a: seq<Write>, b: seq<Write>)
    ensures var w, v := Winner(a), Winner(a + b);
            && (v.None? ==> w.None?)
            && (v.Some? ==> w == v || (w.Some? ==> w.value.Time() < v.value.Time()))
  {
    WinnerConcat(a, b);
  }

  lemma MidAgain(c: Cell, d: Cell, e: Cell, w: Option<Write>)
    requires MidCell(c, d, w) && MidCell(d, e, w)
    ensures MidCell(c, e, w)
  {
  }

  /** A retry that fails too leaves it halfway still. */
  lemma MidwayAgain(before: Db, mid: Db, now: Db, ops: seq<Op>)
    requires Midway(before, mid, ops) && Midway(mid, now, ops)
    ensures Midway(before, now, ops)
  {
    forall k ensures MidCell(CellOf(before, k), CellOf(now, k), Winner(WritesOn(k, ops))) {
      assert MidCell(CellOf(before, k), CellOf(mid, k), Winner(WritesOn(k, ops)));
      assert MidCell(CellOf(mid, k), CellOf(now, k), Winner(WritesOn(k, ops)));
      MidAgain(CellOf(before, k), CellOf(mid, k), CellOf(now, k), Winner(WritesOn(k, ops)));
    }
  }

  /** With more ops pushed meanwhile the window comes again longer: then the rows
      still end as if nothing had failed, and the tombstones too exactly if it
      loses the same ones. It loses more where the failed try had executed an
      older delete, and fewer where it had written the row. */
  lemma {:induction false} RetryWithMoreExactly(before: Db, now: Db, ops: seq<Op>, more: seq<Op>)
    requires Disjoint(before) && Midway(before, now, ops)
    ensures ApplyWindow(now, ops + more).rows == ApplyWindow(before, ops + more).rows
    ensures ApplyWindow(now, ops + more) == ApplyWindow(before, ops + more) <==>
            forall k ::
              LosesTombstone(CellOf(before, k), k, ops + more) <==> LosesTombstone(CellOf(now, k), k, ops + more)
  {
    var all := ops + more;
    var a, b := ApplyWindow(now, all), ApplyWindow(before, all);
    forall k
      ensures CellOf(a, k).row == CellOf(b, k).row
      ensures CellOf(a, k) == CellOf(b, k) <==>
              (LosesTombstone(CellOf(before, k), k, all) <==> LosesTombstone(CellOf(now, k), k, all))
    {
      assert Single(CellOf(before, k));
      RetryMoreKey(before, now, ops, more, k);
    }
    SameRows(a, b);
    SameOrNot(a, b);
  }

  lemma RetryMoreKey(before: Db, now: Db, ops: seq<Op>, more: seq<Op>, k: Key)
    requires Single(CellOf(before, k)) && MidCell(CellOf(before, k), CellOf(now, k), Winner(WritesOn(k, ops)))
    ensures var all := ops + more;
            var a, b := CellOf(ApplyWindow(now, all), k), CellOf(ApplyWindow(before, all), k);
            && a.row == b.row
            && (a == b <==> (LosesTombstone(CellOf(before, k), k, all) <==> LosesTombstone(CellOf(now, k), k, all)))
  {
    hide ApplyWindow, MidCell;
    var all := ops + more;
    ApplyWindowPerKey(now, all, k);
    ApplyWindowPerKey(before, all, k);
    WritesOnConcat(k, ops, more);
    NewerOrSame(WritesOn(k, ops), WritesOn(k, more));
    var c, d, w, v := CellOf(before, k), CellOf(now, k), Winner(WritesOn(k, ops)), Winner(WritesOn(k, all));
    if v.Some? {
      RetryMoreCell(c, d, w, v.value);
    } else {
      NothingToRetry(c, d);
    }
  }
}
