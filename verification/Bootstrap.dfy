/**
 Snapshot bootstrap of one key.

 `ws` is the key's whole write history at the server; the server's key after
 the first `n` writes is `At(ws, n)`. A replica holding `c` gets a snapshot
 taken as of prefix `s` whose rows were read at `r` and whose tombstones at `t`
 (a torn snapshot: s <= r <= t), installs it as the client does, and then goes
 through `v`, the replay of everything after `s`.

 No write after `s` is a blind delete; what came before `s` is arbitrary. The
 proofs first treat histories without any blind delete, then drop the blind
 deletes of the others, which left no trace.
 */
module Bootstrap {
  import opened Protocol
  import opened Register

  function At(ws: seq<Write>, n: nat): Cell
    requires n <= |ws|
  {
    Run(EMPTY, ws[..n])
  }

  /** `apply_tombstones`: write the tombstone, never regressing a newer one.
      The live row, if any, stays. */
  function TombInstalled(c: Cell, tomb: Option<Ts>): Cell {
    if tomb.Some? && (c.tomb.None? || tomb.value > c.tomb.value) then c.(tomb := tomb) else c
  }

  /** The client installs a snapshot's tombstones first, then sinks its rows as
      upserts. */
  function Installed(c: Cell, row: Option<Row>, tomb: Option<Ts>): Cell {
    var held := TombInstalled(c, tomb);
    if row.Some? then Step(held, Put(row.value)) else held
  }

  predicate NotAfter(ws: seq<Write>, t: Ts) {
    forall j | 0 <= j < |ws| :: ws[j].Time() <= t
  }

  /** Some delete of the list is newer than the row. */
  predicate Removes(ws: seq<Write>, r: Row) {
    exists j | 0 <= j < |ws| :: ws[j].Del? && ws[j].at > r.lww
  }

  // ---------------------------------------------------------------------
  // Winners of parts
  // ---------------------------------------------------------------------

  lemma {:induction false} WinnerConcat(a: seq<Write>, b: seq<Write>)
    ensures Winner(a + b) == if Winner(b).Some? then Newer(Winner(a), Winner(b).value) else Winner(a)
  {
    if |b| == 0 {
      assert a + b == a;
    } else {
      assert (a + b)[..|a + b| - 1] == a + b[..|b| - 1];
      WinnerConcat(a, b[..|b| - 1]);
    }
  }

  lemma WinnerOfSplit(ws: seq<Write>, n: nat)
    requires n <= |ws|
    ensures Winner(ws) == if Winner(ws[n..]).Some? then Newer(Winner(ws[..n]), Winner(ws[n..]).value)
                          else Winner(ws[..n])
  {
    assert ws == ws[..n] + ws[n..];
    WinnerConcat(ws[..n], ws[n..]);
  }

  lemma NotAfterWinner(ws: seq<Write>)
    requires |ws| > 0
    ensures Winner(ws).Some? && NotAfter(ws, Winner(ws).value.Time())
  {
    WinnerIsFirstNewest(ws);
    forall j | 0 <= j < |ws| ensures ws[j].Time() <= Winner(ws).value.Time() {
      assert ws[j] in ws;
    }
  }

  /** What a server key holds is decided by the newest write so far. */
  lemma AtIsOutcome(ws: seq<Write>, n: nat)
    requires n <= |ws| && NoBlind(EMPTY, ws)
    ensures At(ws, n) == Outcome(EMPTY, Winner(ws[..n])) && NoBlind(EMPTY, ws[..n])
  {
    var a, b := ws[..n], ws[n..];
    assert ws == a + b;
    RunConcat(EMPTY, a, b);
    NewestWriteDecides(EMPTY, a);
  }

  // ---------------------------------------------------------------------
  // Runs on keys that may hold a row under a tombstone
  // ---------------------------------------------------------------------

  /** Everything the key records is older than `x`, or is `x` itself. */
  predicate Under(c: Cell, x: Row) {
    && (c.row.Some? ==> c.row.value.lww < x.lww || c.row.value == x)
    && (c.tomb.Some? ==> c.tomb.value < x.lww)
  }

  lemma {:induction false} OlderWritesStayUnder(c: Cell, ws: seq<Write>, x: Row)
    requires Under(c, x) && (forall j | 0 <= j < |ws| :: ws[j].Time() < x.lww)
    ensures Under(Run(c, ws), x)
  {
    if |ws| == 0 {
    } else {
      OlderWritesStayUnder(c, ws[..|ws| - 1], x);
    }
  }

  lemma {:induction false} NewestRowHolds(x: Row, ws: seq<Write>)
    requires NotAfter(ws, x.lww)
    ensures Run(Cell(Some(x), None), ws) == Cell(Some(x), None)
  {
    if |ws| == 0 {
    } else {
      NewestRowHolds(x, ws[..|ws| - 1]);
    }
  }

  /** A replay whose newest write is an upsert ends with that row. */
  lemma {:induction false} NewestRowArrives(c: Cell, ws: seq<Write>, x: Row)
    requires Winner(ws) == Some(Put(x)) && Under(c, x)
    ensures Run(c, ws) == Cell(Some(x), None)
  {
    var init, w := ws[..|ws| - 1], ws[|ws| - 1];
    if Winner(init) == Some(Put(x)) {
      NewestRowArrives(c, init, x);
      NotAfterWinner(ws);
    } else {
      if |init| > 0 { NotAfterWinner(init); }
      OlderWritesStayUnder(c, init, x);
    }
  }

  /** Under a tombstone nothing of the replay outdates, only a delete newer
      than the stale row can take that row away. */
  lemma {:induction false} NewestTombHolds(c: Cell, ws: seq<Write>, m: Ts)
    requires c.tomb == Some(m) && NotAfter(ws, m)
    ensures Run(c, ws) == if Live(c) && Removes(ws, c.row.value) then Cell(None, Some(m)) else c
  {
    if |ws| == 0 {
    } else {
      var init, w := ws[..|ws| - 1], ws[|ws| - 1];
      NewestTombHolds(c, init, m);
      assert w.Time() <= m;
      if Live(c) {
        assert Removes(ws, c.row.value) <==> Removes(init, c.row.value) || (w.Del? && w.at > c.row.value.lww) by {
          if Removes(init, c.row.value) {
            var j :| 0 <= j < |init| && init[j].Del? && init[j].at > c.row.value.lww;
            assert ws[j] == init[j];
          }
        }
      }
    }
  }

  // ---------------------------------------------------------------------
  // The bootstrap
  // ---------------------------------------------------------------------

  /** The replay decides like the stretch of history it stands for: the same
      newest write, and no write the stretch does not have. */
  predicate StandsFor(v: seq<Write>, tail: seq<Write>) {
    && Winner(v) == Winner(tail)
    && forall j | 0 <= j < |v| :: v[j] in tail
  }

  /** The replica's row and its tombstone, if any, are each one the server's key
      held at some point: at any cursor, with tombstones lost or snapshots half
      applied. */
  ghost predicate Shown(c: Cell, ws: seq<Write>) {
    && (c.row.Some? ==> exists n | 0 <= n <= |ws| :: At(ws, n).row == c.row)
    && (c.tomb.Some? ==> exists n | 0 <= n <= |ws| :: At(ws, n).tomb == c.tomb)
  }

  /** After the installation. */
  function Bootstrapping(c: Cell, ws: seq<Write>, r: nat, t: nat): Cell
    requires r <= |ws| && t <= |ws|
  {
    Installed(c, At(ws, r).row, At(ws, t).tomb)
  }

  /** The replay `v` takes the installed key `d` to the server's deleted key: a
      live row under the final tombstone needs a newer delete, and a delete
      still to come has to land. A live server key always arrives. */
  ghost predicate Arrives(d: Cell, end: Cell, v: seq<Write>) {
    end.tomb.Some? ==>
      if d.tomb == end.tomb then Live(d) ==> Removes(v, d.row.value)
      else NewestLands(d, v)
  }

  lemma ServerStaysUnder(ws: seq<Write>, n: nat, x: Row)
    requires n <= |ws| && NoBlind(EMPTY, ws) && Winner(ws) == Some(Put(x))
    ensures Under(At(ws, n), x)
  {
    AtIsOutcome(ws, n);
    WinnerOfSplit(ws, n);
  }

  lemma ShownUnder(c: Cell, ws: seq<Write>, x: Row)
    requires Shown(c, ws) && NoBlind(EMPTY, ws) && Winner(ws) == Some(Put(x))
    ensures Under(c, x)
  {
    if c.row.Some? {
      var n :| 0 <= n <= |ws| && At(ws, n).row == c.row;
      ServerStaysUnder(ws, n, x);
    }
    if c.tomb.Some? {
      var n :| 0 <= n <= |ws| && At(ws, n).tomb == c.tomb;
      ServerStaysUnder(ws, n, x);
    }
  }

  lemma ReplayNotAfter(ws: seq<Write>, s: nat, v: seq<Write>)
    requires s <= |ws| && |ws| > 0 && StandsFor(v, ws[s..])
    ensures Winner(ws).Some? && NotAfter(v, Winner(ws).value.Time())
  {
    NotAfterWinner(ws);
  }

  /** A key whose newest write is an upsert always comes out right. */
  lemma BootstrapOfLiveKey(c: Cell, ws: seq<Write>, s: nat, r: nat, t: nat, v: seq<Write>, x: Row)
    requires NoBlind(EMPTY, ws) && s <= r <= t <= |ws| && Shown(c, ws)
    requires Winner(ws) == Some(Put(x)) && StandsFor(v, ws[s..])
    ensures Run(Bootstrapping(c, ws, r, t), v) == Cell(Some(x), None)
  {
    var b, e := At(ws, r), At(ws, t);
    assert Under(c, x) by { ShownUnder(c, ws, x); }
    assert Under(b, x) by { ServerStaysUnder(ws, r, x); }
    assert Under(e, x) by { ServerStaysUnder(ws, t, x); }
    InstalledUnder(c, b, e, x);
    if Winner(ws[..s]) == Some(Put(x)) {
      assert b == Written(Put(x)) by { DecidedPrefix(ws, s, r); }
      assert e == Written(Put(x)) by { DecidedPrefix(ws, s, t); }
      assert NotAfter(v, x.lww) by { ReplayNotAfter(ws, s, v); }
      NewestRowHolds(x, v);
    } else {
      assert Winner(v) == Some(Put(x)) by { WinnerOfSplit(ws, s); }
      NewestRowArrives(Installed(c, b.row, e.tomb), v, x);
    }
  }

  lemma InstalledUnder(c: Cell, b: Cell, e: Cell, x: Row)
    requires Under(c, x) && Under(b, x) && Under(e, x)
    ensures Under(Installed(c, b.row, e.tomb), x)
    ensures b == e == Written(Put(x)) ==> Installed(c, b.row, e.tomb) == Cell(Some(x), None)
  {
  }

  /** Once the newest write has happened the server's key no longer moves. */
  lemma DecidedPrefix(ws: seq<Write>, s: nat, n: nat)
    requires NoBlind(EMPTY, ws) && s <= n <= |ws|
    requires Winner(ws).Some? && Winner(ws[..s]) == Winner(ws)
    ensures At(ws, n) == Written(Winner(ws).value)
  {
    AtIsOutcome(ws, n);
    WinnerOfSplit(ws, n);
    assert ws[..n][..s] == ws[..s];
    WinnerOfSplit(ws[..n], s);
  }

  // ---------------------------------------------------------------------
  // A key the server deleted
  // ---------------------------------------------------------------------

  /** Rows older than the delete, tombstones no newer. */
  predicate Before(c: Cell, m: Ts) {
    && (c.row.Some? ==> c.row.value.lww < m)
    && (c.tomb.Some? ==> c.tomb.value <= m)
  }

  lemma ServerStaysBefore(ws: seq<Write>, n: nat, m: Ts)
    requires n <= |ws| && NoBlind(EMPTY, ws) && Winner(ws) == Some(Del(m))
    ensures Before(At(ws, n), m)
  {
    AtIsOutcome(ws, n);
    WinnerOfSplit(ws, n);
  }

  lemma ShownBefore(c: Cell, ws: seq<Write>, m: Ts)
    requires Shown(c, ws) && NoBlind(EMPTY, ws) && Winner(ws) == Some(Del(m))
    ensures Before(c, m)
  {
    if c.row.Some? {
      var n :| 0 <= n <= |ws| && At(ws, n).row == c.row;
      ServerStaysBefore(ws, n, m);
    }
    if c.tomb.Some? {
      var n :| 0 <= n <= |ws| && At(ws, n).tomb == c.tomb;
      ServerStaysBefore(ws, n, m);
    }
  }

  lemma InstalledBefore(c: Cell, b: Cell, e: Cell, m: Ts)
    requires Before(c, m) && Before(b, m) && Before(e, m)
    ensures var d := Installed(c, b.row, e.tomb);
            && (d.tomb == Some(m) <==> c.tomb == Some(m) || e.tomb == Some(m))
            && (d.tomb == Some(m) ==> d.row == c.row)
            && (d.tomb != Some(m) ==> Behind(d, m))
  {
  }

  lemma BootstrapOfDeletedKey(c: Cell, ws: seq<Write>, s: nat, r: nat, t: nat, v: seq<Write>, m: Ts)
    requires NoBlind(EMPTY, ws) && s <= r <= t <= |ws| && Shown(c, ws)
    requires Winner(ws) == Some(Del(m)) && StandsFor(v, ws[s..])
    ensures Run(Bootstrapping(c, ws, r, t), v) == Cell(None, Some(m)) <==>
            Arrives(Bootstrapping(c, ws, r, t), Cell(None, Some(m)), v)
  {
    var b, e, d := At(ws, r), At(ws, t), Bootstrapping(c, ws, r, t);
    assert Before(c, m) by { ShownBefore(c, ws, m); }
    assert Before(b, m) by { ServerStaysBefore(ws, r, m); }
    assert Before(e, m) by { ServerStaysBefore(ws, t, m); }
    InstalledBefore(c, b, e, m);
    if d.tomb == Some(m) {
      assert NotAfter(v, m) by { ReplayNotAfter(ws, s, v); }
      NewestTombHolds(d, v, m);
    } else {
      assert Winner(v) == Some(Del(m)) by { DeleteStillToCome(ws, s, t, m); }
      UncoveredWriteDecidesExactly(d, v);
    }
  }

  lemma DeleteStillToCome(ws: seq<Write>, s: nat, t: nat, m: Ts)
    requires NoBlind(EMPTY, ws) && s <= t <= |ws| && Winner(ws) == Some(Del(m)) && At(ws, t).tomb != Some(m)
    ensures Winner(ws[s..]) == Some(Del(m))
  {
    if Winner(ws[..s]) == Winner(ws) {
      DecidedPrefix(ws, s, t);
    } else {
      WinnerOfSplit(ws, s);
    }
  }

  // ---------------------------------------------------------------------
  // When the replay is every write, or the tombstones are the last ones
  // ---------------------------------------------------------------------

  /** Where the newest write sits. */
  lemma {:induction false} FirstNewest(ws: seq<Write>) returns (p: nat)
    requires |ws| > 0
    ensures p < |ws| && Winner(ws) == Some(ws[p])
    ensures forall j | 0 <= j < p :: ws[j].Time() < ws[p].Time()
  {
    var init := ws[..|ws| - 1];
    if Winner(init) == Winner(ws) {
      p := FirstNewest(init);
      assert forall j | 0 <= j < p :: ws[j] == init[j];
    } else {
      p := |ws| - 1;
      if |init| > 0 {
        NotAfterWinner(init);
        assert forall j | 0 <= j < p :: ws[j] == init[j];
      }
    }
  }

  /** A server row is live right before the delete that removes it. */
  lemma LiveBeforeNewestDelete(ws: seq<Write>, p: nat) returns (x: Row)
    requires NoBlind(EMPTY, ws) && p < |ws| && ws[p].Del?
    requires forall j | 0 <= j < p :: ws[j].Time() < ws[p].Time()
    ensures At(ws, p) == Cell(Some(x), None) && Winner(ws[..p]) == Some(Put(x)) && x.lww < ws[p].at
  {
    assert ws[..p + 1] == ws[..p] + [ws[p]];
    assert ws == ws[..p + 1] + ws[p + 1..];
    RunConcat(EMPTY, ws[..p + 1], ws[p + 1..]);
    RunConcat(EMPTY, ws[..p], [ws[p]]);
    assert ws[..p + 1][..p] == ws[..p];
    AtIsOutcome(ws, p);
    if p > 0 { NotAfterWinner(ws[..p]); WinnerIsFirstNewest(ws[..p]); }
    assert !Blind(At(ws, p), ws[p]);
    assert Live(At(ws, p));
    x := At(ws, p).row.value;
  }

  /** After its newest delete the server's key no longer shows anything else. */
  lemma ShownEarlier(c: Cell, ws: seq<Write>, p: nat)
    requires NoBlind(EMPTY, ws) && p < |ws| && ws[p].Del? && Winner(ws) == Some(ws[p])
    requires Shown(c, ws) && c.tomb != Some(ws[p].at)
    ensures Shown(c, ws[..p])
  {
    if c.row.Some? {
      var n :| 0 <= n <= |ws| && At(ws, n).row == c.row;
      NotYetDeleted(ws, p, n);
      assert At(ws[..p], n) == At(ws, n) by { assert ws[..p][..n] == ws[..n]; }
    }
    if c.tomb.Some? {
      var n :| 0 <= n <= |ws| && At(ws, n).tomb == c.tomb;
      NotYetDeleted(ws, p, n);
      assert At(ws[..p], n) == At(ws, n) by { assert ws[..p][..n] == ws[..n]; }
    }
  }

  lemma NotYetDeleted(ws: seq<Write>, p: nat, n: nat)
    requires NoBlind(EMPTY, ws) && p < |ws| && n <= |ws| && ws[p].Del? && Winner(ws) == Some(ws[p])
    requires At(ws, n) != Cell(None, Some(ws[p].at))
    ensures n <= p
  {
    if n > p {
      assert ws[..n][p] == ws[p];
      NotAfterWinner(ws[..n]);
    }
    AtIsOutcome(ws, n);
    WinnerOfSplit(ws, n);
  }

  /** A delete that happens during a write-by-write replay always lands: the
      replay first rebuilds the row the server then held. */
  lemma DeleteInReplayLands(c: Cell, ws: seq<Write>, s: nat, r: nat, t: nat, m: Ts)
    requires NoBlind(EMPTY, ws) && s <= r <= t <= |ws| && Shown(c, ws)
    requires Winner(ws) == Some(Del(m)) && Bootstrapping(c, ws, r, t).tomb != Some(m)
    ensures NewestLands(Bootstrapping(c, ws, r, t), ws[s..])
    ensures Live(c) ==> Removes(ws[s..], c.row.value)
  {
    var p := FirstNewest(ws);
    var d := Bootstrapping(c, ws, r, t);
    assert Before(c, m) by { ShownBefore(c, ws, m); }
    assert Before(At(ws, r), m) by { ServerStaysBefore(ws, r, m); }
    assert Before(At(ws, t), m) by { ServerStaysBefore(ws, t, m); }
    InstalledBefore(c, At(ws, r), At(ws, t), m);
    NotYetDeleted(ws, p, t);
    ShownEarlier(c, ws, p);
    ReplayRebuildsRow(c, ws, p, s, r, t, m);
    DeleteStillToCome(ws, s, t, m);
    DeleteLandsAt(d, ws, s, p);
  }

  lemma ReplayRebuildsRow(c: Cell, ws: seq<Write>, p: nat, s: nat, r: nat, t: nat, m: Ts)
    requires NoBlind(EMPTY, ws) && p < |ws| && ws[p] == Del(m) && s <= r <= t <= p && Shown(c, ws[..p])
    requires forall j | 0 <= j < p :: ws[j].Time() < m
    ensures FindsRow(Run(Bootstrapping(c, ws, r, t), ws[s..p]), Del(m))
  {
    var x := LiveBeforeNewestDelete(ws, p);
    var before := ws[..p];
    assert before[..r] == ws[..r] && before[..t] == ws[..t] && before[s..] == ws[s..p];
    AtIsOutcome(ws, p);
    BootstrapOfLiveKey(c, before, s, r, t, ws[s..p], x);
  }

  lemma DeleteLandsAt(d: Cell, ws: seq<Write>, s: nat, p: nat)
    requires s <= p < |ws| && ws[p].Del? && Winner(ws[s..]) == Some(ws[p])
    requires FindsRow(Run(d, ws[s..p]), ws[p])
    ensures NewestLands(d, ws[s..])
    ensures forall x: Row | x.lww < ws[p].at :: Removes(ws[s..], x)
  {
    assert ws[s..][p - s] == ws[p] && ws[s..][..p - s] == ws[s..p];
  }

  /** What matters then is only the replica's own live row. */
  predicate StaleRowGoes(c: Cell, end: Cell, v: seq<Write>) {
    end.tomb.Some? && Live(c) ==> Removes(v, c.row.value)
  }

  lemma ArrivesLocally(c: Cell, ws: seq<Write>, s: nat, r: nat, t: nat, v: seq<Write>)
    requires NoBlind(EMPTY, ws) && s <= r <= t <= |ws| && Shown(c, ws) && StandsFor(v, ws[s..])
    requires t == |ws| || v == ws[s..]
    ensures Arrives(Bootstrapping(c, ws, r, t), Run(EMPTY, ws), v) <==> StaleRowGoes(c, Run(EMPTY, ws), v)
  {
    var end := Run(EMPTY, ws);
    NewestWriteDecides(EMPTY, ws);
    if end.tomb.Some? {
      var m := end.tomb.value;
      assert end == Cell(None, Some(m)) && Winner(ws) == Some(Del(m));
      assert t == |ws| ==> At(ws, t) == end by { assert ws[..|ws|] == ws; }
      DeletedArrivesLocally(c, ws, s, r, t, v, m);
    }
  }

  lemma DeletedArrivesLocally(c: Cell, ws: seq<Write>, s: nat, r: nat, t: nat, v: seq<Write>, m: Ts)
    requires NoBlind(EMPTY, ws) && s <= r <= t <= |ws| && Shown(c, ws)
    requires Winner(ws) == Some(Del(m)) && (At(ws, t).tomb == Some(m) || v == ws[s..])
    ensures Arrives(Bootstrapping(c, ws, r, t), Cell(None, Some(m)), v) <==>
            (Live(c) ==> Removes(v, c.row.value))
  {
    var b, e := At(ws, r), At(ws, t);
    assert Before(c, m) by { ShownBefore(c, ws, m); }
    assert Before(b, m) by { ServerStaysBefore(ws, r, m); }
    assert Before(e, m) by { ServerStaysBefore(ws, t, m); }
    InstalledBefore(c, b, e, m);
    if Bootstrapping(c, ws, r, t).tomb != Some(m) {
      DeleteInReplayLands(c, ws, s, r, t, m);
    }
  }

  // ---------------------------------------------------------------------
  // Exactly when the bootstrap arrives
  // ---------------------------------------------------------------------

  /** On a history without blind deletes. */
  lemma {:induction false} SightedBootstrapExact(c: Cell, ws: seq<Write>, s: nat, r: nat, t: nat, v: seq<Write>)
    requires NoBlind(EMPTY, ws) && s <= r <= t <= |ws| && Shown(c, ws) && StandsFor(v, ws[s..])
    ensures Run(Bootstrapping(c, ws, r, t), v) == Run(EMPTY, ws) <==>
            Arrives(Bootstrapping(c, ws, r, t), Run(EMPTY, ws), v)
  {
    if |ws| == 0 {
      NothingToBootstrap(c, ws, v);
    } else {
      WinnerIsFirstNewest(ws);
      NewestWriteDecides(EMPTY, ws);
      KeyBootstrapExact(c, ws, s, r, t, v, Run(EMPTY, ws), Winner(ws).value);
    }
  }

  lemma KeyBootstrapExact(c: Cell, ws: seq<Write>, s: nat, r: nat, t: nat, v: seq<Write>, end: Cell, w: Write)
    requires NoBlind(EMPTY, ws) && s <= r <= t <= |ws| && Shown(c, ws) && StandsFor(v, ws[s..])
    requires Winner(ws) == Some(w) && end == Written(w)
    ensures Run(Bootstrapping(c, ws, r, t), v) == end <==> Arrives(Bootstrapping(c, ws, r, t), end, v)
  {
    match w
    case Put(x) => BootstrapOfLiveKey(c, ws, s, r, t, v, x);
    case Del(m) => BootstrapOfDeletedKey(c, ws, s, r, t, v, m);
  }

  lemma NothingToBootstrap(c: Cell, ws: seq<Write>, v: seq<Write>)
    requires |ws| == 0 && Shown(c, ws) && StandsFor(v, ws[0..])
    ensures c == EMPTY && v == []
  {
  }

  /** Where the first `n` writes end once the blind deletes are dropped. */
  function Position(ws: seq<Write>, n: nat): nat
    requires n <= |ws|
  {
    |Sighted(EMPTY, ws[..n])|
  }

  /** The history without its blind deletes shows the same server. */
  lemma SightedView(ws: seq<Write>, n: nat)
    requires n <= |ws|
    ensures var q := Sighted(EMPTY, ws);
            && NoBlind(EMPTY, q) && Run(EMPTY, q) == Run(EMPTY, ws)
            && Position(ws, n) <= |q| && At(q, Position(ws, n)) == At(ws, n)
            && (NoBlind(At(ws, n), ws[n..]) ==> q[Position(ws, n)..] == ws[n..])
  {
    var q, p := Sighted(EMPTY, ws), Sighted(EMPTY, ws[..n]);
    BlindDeletesLeaveNoTrace(EMPTY, ws);
    BlindDeletesLeaveNoTrace(EMPTY, ws[..n]);
    assert q == p + Sighted(At(ws, n), ws[n..]) by { SightedSplit(ws, n); }
    assert q[..|p|] == p;
    if NoBlind(At(ws, n), ws[n..]) { SightedIsAll(At(ws, n), ws[n..]); }
  }

  lemma {:induction false} SightedSplit(ws: seq<Write>, n: nat)
    requires n <= |ws|
    ensures Sighted(EMPTY, ws) == Sighted(EMPTY, ws[..n]) + Sighted(At(ws, n), ws[n..])
  {
    var a, b := ws[..n], ws[n..];
    assert ws == a + b;
    SightedConcat(EMPTY, a, b);
  }

  lemma PositionsGrow(ws: seq<Write>, m: nat, n: nat)
    requires m <= n <= |ws|
    ensures Position(ws, m) <= Position(ws, n)
  {
    assert ws[..n] == ws[..m] + ws[m..n];
    SightedConcat(EMPTY, ws[..m], ws[m..n]);
  }

  lemma {:induction false} ShownSighted(c: Cell, ws: seq<Write>)
    requires Shown(c, ws)
    ensures Shown(c, Sighted(EMPTY, ws))
  {
    if c.row.Some? {
      var n :| 0 <= n <= |ws| && At(ws, n).row == c.row;
      SightedView(ws, n);
    }
    if c.tomb.Some? {
      var n :| 0 <= n <= |ws| && At(ws, n).tomb == c.tomb;
      SightedView(ws, n);
    }
  }

  /** The bootstrap of one key, exactly: torn snapshot, any replica that only
      shows what the server once held, any replay that stands for the writes
      after `s`. */
  lemma {:induction false} BootstrapExact(c: Cell, ws: seq<Write>, s: nat, r: nat, t: nat, v: seq<Write>)
    requires s <= r <= t <= |ws| && NoBlind(At(ws, s), ws[s..])
    requires Shown(c, ws) && StandsFor(v, ws[s..])
    ensures Run(Bootstrapping(c, ws, r, t), v) == Run(EMPTY, ws) <==>
            Arrives(Bootstrapping(c, ws, r, t), Run(EMPTY, ws), v)
  {
    SightedView(ws, s);
    SightedView(ws, r);
    SightedView(ws, t);
    PositionsGrow(ws, s, r);
    PositionsGrow(ws, r, t);
    ShownSighted(c, ws);
    SightedBootstrapExact(c, Sighted(EMPTY, ws), Position(ws, s), Position(ws, r), Position(ws, t), v);
  }

  /** The torn snapshot with every write after `s` replayed one by one, or a quiet
      server's with the replay collapsed into windows: it arrives exactly when
      the server's key is live, or the replica holds no live row, or the replay
      has a delete newer than it. */
  lemma {:induction false} BootstrapExactLocally(c: Cell, ws: seq<Write>, s: nat, r: nat, t: nat, v: seq<Write>)
    requires s <= r <= t <= |ws| && NoBlind(At(ws, s), ws[s..])
    requires Shown(c, ws) && StandsFor(v, ws[s..]) && (t == |ws| || v == ws[s..])
    ensures Run(Bootstrapping(c, ws, r, t), v) == Run(EMPTY, ws) <==> StaleRowGoes(c, Run(EMPTY, ws), v)
  {
    BootstrapExact(c, ws, s, r, t, v);
    SightedView(ws, s);
    SightedView(ws, r);
    SightedView(ws, t);
    PositionsGrow(ws, s, r);
    PositionsGrow(ws, r, t);
    ShownSighted(c, ws);
    assert t == |ws| ==> Position(ws, t) == |Sighted(EMPTY, ws)| by { assert ws[..|ws|] == ws; }
    ArrivesLocally(c, Sighted(EMPTY, ws), Position(ws, s), Position(ws, r), Position(ws, t), v);
  }

  /** The concrete failure: a replica holding a live row the server deleted
      keeps it through the snapshot, alongside the tombstone. */
  lemma {:induction false} SnapshotKeepsDeletedRow(r: Row, at: Ts)
    requires r.lww < at
    ensures var ws := [Put(r), Del(at)];
            && NoBlind(EMPTY, ws)
            && Run(EMPTY, ws) == Cell(None, Some(at))
            && Bootstrapping(Cell(Some(r), None), ws, 2, 2) == Cell(Some(r), Some(at))
  {
    var ws := [Put(r), Del(at)];
    var first := [Put(r)];
    assert ws[..1] == first && ws[..2] == ws && first[..0] == [];
    assert Run(EMPTY, first) == Step(Run(EMPTY, []), Put(r));
    assert NoBlind(EMPTY, first[..|first| - 1]);
    assert !Blind(Run(EMPTY, first[..|first| - 1]), first[|first| - 1]);
    assert NoBlind(EMPTY, first);
    assert ws[..|ws| - 1] == first;
  }
}
