/**
 The merge rules seen from a single key: a register holding at most one live
 row and at most one tombstone.

 `Step` is what the generated SQL does to the key. `RefStep` is the reference
 model the repository's own tests pin (every applier "must agree with" it).
 They differ on exactly one kind of write, the blind delete.
 */
module Register {
  import opened Protocol

  /** One key of a database. A server key never holds both; a client that
      installed a snapshot tombstone over a live row can. */
  datatype Cell = Cell(row: Option<Row>, tomb: Option<Ts>)

  const EMPTY := Cell(None, None)

  predicate Single(c: Cell) {
    c.row.None? || c.tomb.None?
  }

  predicate Live(c: Cell) {
    c.row.Some?
  }

  /** Everything the key records is older than `t`. */
  predicate Behind(c: Cell, t: Ts) {
    && (c.row.Some? ==> c.row.value.lww < t)
    && (c.tomb.Some? ==> c.tomb.value < t)
  }

  // ---------------------------------------------------------------------
  // The generated statements, on one key
  // ---------------------------------------------------------------------

  /** `guarded_upsert_sql`: a newer-or-equal tombstone filters the row out,
      an absent row inserts, a present one is replaced only if older. */
  function Upserted(c: Cell, r: Row): Cell {
    if c.tomb.Some? && c.tomb.value >= r.lww then c
    else if c.row.None? || r.lww > c.row.value.lww then c.(row := Some(r))
    else c
  }

  /** `tombstone_clear_sql`. */
  function Cleared(c: Cell, at: Ts): Cell {
    if c.tomb.Some? && c.tomb.value < at then c.(tomb := None) else c
  }

  /** `delete_sql`: only a row actually removed leaves a tombstone. */
  function Deleted(c: Cell, at: Ts): Cell {
    if c.row.Some? && c.row.value.lww < at then
      Cell(None, if c.tomb.Some? && c.tomb.value >= at then c.tomb else Some(at))
    else c
  }

  function Step(c: Cell, w: Write): Cell {
    match w
    case Put(r) => Cleared(Upserted(c, r), r.lww)
    case Del(at) => Deleted(c, at)
  }

  function Run(c: Cell, ws: seq<Write>): Cell {
    if |ws| == 0 then c else Step(Run(c, ws[..|ws| - 1]), ws[|ws| - 1])
  }

  // ---------------------------------------------------------------------
  // The reference model
  // ---------------------------------------------------------------------

  function RefStep(c: Cell, w: Write): Cell {
    if !TombstoneAllows(w.Time(), c.tomb) then c
    else if c.row.Some? && w.Time() <= c.row.value.lww then c
    else match w
      case Put(r) => Cell(Some(r), None)
      case Del(at) => Cell(None, Some(at))
  }

  function RefRun(c: Cell, ws: seq<Write>): Cell {
    if |ws| == 0 then c else RefStep(RefRun(c, ws[..|ws| - 1]), ws[|ws| - 1])
  }

  /** A delete newer than everything the key records that finds no live row. */
  predicate Blind(c: Cell, w: Write) {
    w.Del? && c.row.None? && Behind(c, w.at)
  }

  /** No write of the run is a blind delete where it is applied. */
  predicate NoBlind(c: Cell, ws: seq<Write>) {
    |ws| == 0 || (NoBlind(c, ws[..|ws| - 1]) && !Blind(Run(c, ws[..|ws| - 1]), ws[|ws| - 1]))
  }

  /** The SQL and the reference model part ways exactly on blind deletes. */
  lemma SqlAgreesWithReference(c: Cell, w: Write)
    requires Single(c)
    ensures Step(c, w) == RefStep(c, w) <==> !Blind(c, w)
    ensures Single(Step(c, w)) && Single(RefStep(c, w))
  {
  }

  lemma {:induction false} RunSingle(c: Cell, ws: seq<Write>)
    requires Single(c)
    ensures Single(Run(c, ws))
  {
    if |ws| == 0 {
    } else {
      RunSingle(c, ws[..|ws| - 1]);
      SqlAgreesWithReference(Run(c, ws[..|ws| - 1]), ws[|ws| - 1]);
    }
  }

  /** ... and so along a whole run: the two agree after every prefix exactly
      when no write of the run is a blind delete. */
  lemma {:induction false} RunsAgreeExactly(c: Cell, ws: seq<Write>)
    requires Single(c)
    ensures NoBlind(c, ws) <==> forall n | 0 <= n <= |ws| :: Run(c, ws[..n]) == RefRun(c, ws[..n])
  {
    if |ws| == 0 {
    } else {
      var init := ws[..|ws| - 1];
      RunsAgreeExactly(c, init);
      RunSingle(c, init);
      assert forall n | 0 <= n <= |init| :: init[..n] == ws[..n];
      assert ws[..|ws|] == ws && init[..|init|] == init;
      SqlAgreesWithReference(Run(c, init), ws[|ws| - 1]);
    }
  }

  lemma {:induction false} RunConcat(c: Cell, a: seq<Write>, b: seq<Write>)
    ensures Run(c, a + b) == Run(Run(c, a), b)
    ensures NoBlind(c, a + b) <==> NoBlind(c, a) && NoBlind(Run(c, a), b)
  {
    if |b| == 0 {
      assert a + b == a;
    } else {
      assert (a + b)[..|a + b| - 1] == a + b[..|b| - 1];
      RunConcat(c, a, b[..|b| - 1]);
    }
  }

  // ---------------------------------------------------------------------
  // The newest write decides
  // ---------------------------------------------------------------------

  /** The first write carrying the greatest time. */
  function Winner(ws: seq<Write>): Option<Write> {
    if |ws| == 0 then None
    else Newer(Winner(ws[..|ws| - 1]), ws[|ws| - 1])
  }

  function Newer(p: Option<Write>, w: Write): (q: Option<Write>)
    ensures q.Some?
  {
    if p.None? || w.Time() > p.value.Time() then Some(w) else p
  }

  /** What the key holds once `w` decided: the outcome of one write. */
  function Written(w: Write): Cell {
    match w
    case Put(r) => Cell(Some(r), None)
    case Del(at) => Cell(None, Some(at))
  }

  function Outcome(c: Cell, w: Option<Write>): Cell {
    if w.Some? && Behind(c, w.value.Time()) then Written(w.value) else c
  }

  lemma {:induction false} WinnerIsFirstNewest(ws: seq<Write>)
    requires |ws| > 0
    ensures Winner(ws).Some? && Winner(ws).value in ws
    ensures forall w | w in ws :: w.Time() <= Winner(ws).value.Time()
  {
    if |ws| == 1 {
    } else {
      var init := ws[..|ws| - 1];
      WinnerIsFirstNewest(init);
      assert ws == init + [ws[|ws| - 1]];
    }
  }

  /** The reference model is a last-write-wins register: whatever the order of
      the writes, the newest one decides. */
  lemma {:induction false} ReferenceIsNewestWrite(c: Cell, ws: seq<Write>)
    requires Single(c)
    ensures RefRun(c, ws) == Outcome(c, Winner(ws))
    ensures Single(RefRun(c, ws))
  {
    if |ws| == 0 {
    } else {
      ReferenceIsNewestWrite(c, ws[..|ws| - 1]);
    }
  }

  /** Without blind deletes the SQL is that register too. */
  lemma NewestWriteDecides(c: Cell, ws: seq<Write>)
    requires Single(c) && NoBlind(c, ws)
    ensures Run(c, ws) == Outcome(c, Winner(ws))
  {
    RunsAgreeExactly(c, ws);
    assert ws[..|ws|] == ws;
    ReferenceIsNewestWrite(c, ws);
  }

  /** The delete's own guard: is there an older live row to remove? */
  predicate FindsRow(c: Cell, w: Write) {
    w.Del? && c.row.Some? && c.row.value.lww < w.at
  }

  /** The newest write lands: it is an upsert, or a delete that finds an older
      live row at one of its deliveries. */
  ghost predicate NewestLands(c: Cell, ws: seq<Write>) {
    exists i | 0 <= i < |ws| ::
      && Winner(ws) == Some(ws[i])
      && (ws[i].Put? || FindsRow(Run(c, ws[..i]), ws[i]))
  }

  /** A newest write newer than all the key records decides exactly if it lands,
      even on a key that holds a row and a tombstone at once. */
  lemma {:induction false} UncoveredWriteDecidesExactly(c: Cell, ws: seq<Write>)
    requires |ws| > 0 && Behind(c, Winner(ws).value.Time())
    ensures Run(c, ws) == Written(Winner(ws).value) <==> NewestLands(c, ws)
    ensures var t := Winner(ws).value.Time();
            !NewestLands(c, ws) ==> Behind(Run(c, ws), t + 1) && Run(c, ws).tomb != Some(t)
  {
    var init, w := ws[..|ws| - 1], ws[|ws| - 1];
    LandsOrNot(c, ws);
    WinnerIsFirstNewest(ws);
    if |init| > 0 && Winner(init) == Winner(ws) {
      UncoveredWriteDecidesExactly(c, init);
      if Winner(ws).value.Put? { UpsertLands(c, init); }
    } else {
      if |init| > 0 { WinnerIsFirstNewest(init); }
      OlderWritesStayBehind(c, init, w.Time());
    }
  }

  lemma UpsertLands(c: Cell, ws: seq<Write>)
    requires |ws| > 0 && Winner(ws).value.Put?
    ensures NewestLands(c, ws)
  {
    WinnerIsFirstNewest(ws);
    var i :| 0 <= i < |ws| && ws[i] == Winner(ws).value;
    assert Winner(ws) == Some(ws[i]) && ws[i].Put?;
  }

  lemma {:induction false} OlderWritesStayBehind(c: Cell, ws: seq<Write>, t: Ts)
    requires Behind(c, t) && forall w | w in ws :: w.Time() < t
    ensures Behind(Run(c, ws), t)
  {
    if |ws| == 0 {
    } else {
      assert ws[|ws| - 1] in ws && forall w | w in ws[..|ws| - 1] :: w in ws;
      OlderWritesStayBehind(c, ws[..|ws| - 1], t);
    }
  }

  /** Exactly when the SQL is that register: a covered newest write decides
      nothing anyway, an uncovered one has to land. */
  lemma {:induction false} NewestWriteDecidesExactly(c: Cell, ws: seq<Write>)
    requires Single(c) && |ws| > 0
    ensures Run(c, ws) == Outcome(c, Winner(ws)) <==> !Behind(c, Winner(ws).value.Time()) || NewestLands(c, ws)
  {
    WinnerIsFirstNewest(ws);
    if Behind(c, Winner(ws).value.Time()) {
      UncoveredWriteDecidesExactly(c, ws);
    } else {
      CoveredWritesChangeNothing(c, ws);
    }
  }

  // ---------------------------------------------------------------------
  // Without the blind deletes
  // ---------------------------------------------------------------------

  /** The writes of a run that are not blind deletes where they are applied. */
  function Sighted(c: Cell, ws: seq<Write>): seq<Write> {
    if |ws| == 0 then []
    else
      var init, w := ws[..|ws| - 1], ws[|ws| - 1];
      Sighted(c, init) + if Blind(Run(c, init), w) then [] else [w]
  }

  /** A blind delete leaves no trace: the run is that of its other writes. */
  lemma {:induction false} BlindDeletesLeaveNoTrace(c: Cell, ws: seq<Write>)
    ensures Run(c, Sighted(c, ws)) == Run(c, ws) && NoBlind(c, Sighted(c, ws))
  {
    if |ws| == 0 {
    } else {
      var init, w := ws[..|ws| - 1], ws[|ws| - 1];
      BlindDeletesLeaveNoTrace(c, init);
      if Blind(Run(c, init), w) {
        assert Sighted(c, ws) == Sighted(c, init);
      } else {
        assert Sighted(c, ws)[..|Sighted(c, init)|] == Sighted(c, init);
      }
    }
  }

  lemma {:induction false} SightedConcat(c: Cell, a: seq<Write>, b: seq<Write>)
    ensures Sighted(c, a + b) == Sighted(c, a) + Sighted(Run(c, a), b)
  {
    if |b| == 0 {
      assert a + b == a;
    } else {
      assert (a + b)[..|a + b| - 1] == a + b[..|b| - 1];
      SightedConcat(c, a, b[..|b| - 1]);
      RunConcat(c, a, b[..|b| - 1]);
    }
  }

  lemma {:induction false} SightedIsAll(c: Cell, ws: seq<Write>)
    requires NoBlind(c, ws)
    ensures Sighted(c, ws) == ws
  {
    if |ws| == 0 {
    } else {
      SightedIsAll(c, ws[..|ws| - 1]);
    }
  }

  /** Landing, one write at a time. */
  lemma LandsOrNot(c: Cell, ws: seq<Write>)
    requires |ws| > 0
    ensures var init, w := ws[..|ws| - 1], ws[|ws| - 1];
            NewestLands(c, ws) <==>
              || (Winner(ws) == Winner(init) && NewestLands(c, init))
              || (Winner(ws) == Some(w) && (w.Put? || FindsRow(Run(c, init), w)))
  {
    var init, w := ws[..|ws| - 1], ws[|ws| - 1];
    forall i | 0 <= i < |init| ensures ws[i] == init[i] && ws[..i] == init[..i] {
    }
    if NewestLands(c, ws) {
      var i :| 0 <= i < |ws| && Winner(ws) == Some(ws[i]) && (ws[i].Put? || FindsRow(Run(c, ws[..i]), ws[i]));
      if i < |init| {
        WinnerIsFirstNewest(init);
        assert init[i] in init;
        assert Winner(ws) == Winner(init);
      }
    }
  }

  /** Each instant names one write. */
  ghost predicate TimeNamesWrite(ws: seq<Write>) {
    forall v, w | v in ws && w in ws && v.Time() == w.Time() :: v == w
  }

  ghost predicate SameWrites(a: seq<Write>, b: seq<Write>) {
    forall w :: w in a <==> w in b
  }

  lemma SameWritesSameWinner(a: seq<Write>, b: seq<Write>)
    requires SameWrites(a, b) && TimeNamesWrite(a)
    ensures Winner(a) == Winner(b)
  {
    if |a| > 0 { WinnerIsFirstNewest(a); assert Winner(a).value in b; }
    if |b| > 0 { WinnerIsFirstNewest(b); assert Winner(b).value in a; }
  }

  // ---------------------------------------------------------------------
  // The register law
  // ---------------------------------------------------------------------

  /** Writes that take effect along a run have strictly increasing times. */
  lemma EffectiveTimesIncrease(c: Cell, ws: seq<Write>, i: nat, j: nat)
    requires Single(c) && i < j < |ws|
    requires Step(Run(c, ws[..i]), ws[i]) != Run(c, ws[..i])
    requires Step(Run(c, ws[..j]), ws[j]) != Run(c, ws[..j])
    ensures ws[i].Time() < ws[j].Time()
  {
    var mid := ws[i + 1..j];
    assert ws[..i + 1] == ws[..i] + [ws[i]];
    assert ws[..j] == ws[..i + 1] + mid;
    RunSingle(c, ws[..i + 1]);
    RunConcat(c, ws[..i + 1], mid);
    ClockNeverFallsBackAlong(Run(c, ws[..i + 1]), mid, ws[i].Time());
    RunSingle(c, ws[..j]);
  }

  /** A deleted row comes back exactly for an upsert the tombstone guard lets
      through, and then the tombstone is gone. */
  lemma ResurrectionIsTheTombstoneGuard(c: Cell, w: Write)
    requires Single(c) && c.tomb.Some?
    ensures Live(Step(c, w)) <==> w.Put? && TombstoneAllows(w.Time(), c.tomb)
    ensures Live(Step(c, w)) ==> Step(c, w) == Written(w)
  {
  }

  // ---------------------------------------------------------------------
  // Redelivery
  // ---------------------------------------------------------------------

  /** The register never forgets how far it got. */
  lemma ClockNeverFallsBack(c: Cell, w: Write, t: Ts)
    requires Single(c) && !Behind(c, t)
    ensures !Behind(Step(c, w), t)
  {
  }

  lemma {:induction false} ClockNeverFallsBackAlong(c: Cell, ws: seq<Write>, t: Ts)
    requires Single(c) && !Behind(c, t)
    ensures !Behind(Run(c, ws), t)
  {
    if |ws| == 0 {
    } else {
      ClockNeverFallsBackAlong(c, ws[..|ws| - 1], t);
      RunSingle(c, ws[..|ws| - 1]);
      ClockNeverFallsBack(Run(c, ws[..|ws| - 1]), ws[|ws| - 1], t);
    }
  }

  /** Writes the clock already covers change nothing, however many. */
  lemma {:induction false} CoveredWritesChangeNothing(c: Cell, ws: seq<Write>)
    requires Single(c) && forall w | w in ws :: !Behind(c, w.Time())
    ensures Run(c, ws) == c && NoBlind(c, ws)
  {
    if |ws| == 0 {
    } else {
      var init := ws[..|ws| - 1];
      assert forall w | w in init :: w in ws;
      CoveredWritesChangeNothing(c, init);
      assert ws[|ws| - 1] in ws;
    }
  }

  /** After a run without blind deletes the clock covers every write of it. */
  lemma {:induction false} RunCoversItsWrites(c: Cell, ws: seq<Write>)
    requires Single(c) && NoBlind(c, ws)
    ensures forall w | w in ws :: !Behind(Run(c, ws), w.Time())
  {
    if |ws| == 0 {
    } else {
      var init := ws[..|ws| - 1];
      RunCoversItsWrites(c, init);
      RunSingle(c, init);
      forall w | w in ws ensures !Behind(Run(c, ws), w.Time()) {
        if w in init {
          ClockNeverFallsBack(Run(c, init), ws[|ws| - 1], w.Time());
        } else {
          assert w == ws[|ws| - 1];
        }
      }
    }
  }

  /** Upserts are covered even after runs with blind deletes. */
  lemma {:induction false} RunCoversItsUpserts(c: Cell, ws: seq<Write>)
    requires Single(c)
    ensures forall w | w in ws && w.Put? :: !Behind(Run(c, ws), w.Time())
  {
    if |ws| == 0 {
    } else {
      var init := ws[..|ws| - 1];
      RunCoversItsUpserts(c, init);
      RunSingle(c, init);
      forall w | w in ws && w.Put? ensures !Behind(Run(c, ws), w.Time()) {
        if w in init {
          ClockNeverFallsBack(Run(c, init), ws[|ws| - 1], w.Time());
        } else {
          assert w == ws[|ws| - 1];
        }
      }
    }
  }

  /** Replaying a stretch the register has already been through, and then
      going on, ends where going on alone would. */
  lemma OverlapReplayIsHarmless(c: Cell, a: seq<Write>, b: seq<Write>)
    requires Single(c) && NoBlind(c, a)
    ensures Run(Run(c, a), a + b) == Run(c, a + b)
  {
    RunSingle(c, a);
    RunCoversItsWrites(c, a);
    CoveredWritesChangeNothing(Run(c, a), a);
    RunConcat(Run(c, a), a, b);
    RunConcat(c, a, b);
  }

  /** Why the hypothesis: from an empty key a blind delete leaves no trace, so
      the two orders of one pair of writes end differently, and redelivering
      the delete removes the row. */
  lemma BlindDeleteBreaksConvergence(r: Row, at: Ts)
    requires r.lww < at
    ensures Run(EMPTY, [Del(at), Put(r)]) == Cell(Some(r), None)
    ensures Run(EMPTY, [Put(r), Del(at)]) == Cell(None, Some(at))
    ensures Run(EMPTY, [Del(at), Put(r), Del(at)]) == Cell(None, Some(at))
    ensures RefRun(EMPTY, [Del(at), Put(r)]) == RefRun(EMPTY, [Put(r), Del(at)])
  {
    var d, p := Del(at), Put(r);
    assert [d, p][..1] == [d] && [p, d][..1] == [p] && [d, p, d][..2] == [d, p];
    assert Run(EMPTY, [d]) == Step(Run(EMPTY, []), d);
    assert Run(EMPTY, [p]) == Step(Run(EMPTY, []), p);
    assert RefRun(EMPTY, [d]) == RefStep(RefRun(EMPTY, []), d);
    assert RefRun(EMPTY, [p]) == RefStep(RefRun(EMPTY, []), p);
  }
}
