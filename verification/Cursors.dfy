/**
 The client's saved cursor, when streamed events and the answers to its own
 pulls interleave. A crash keeps what was applied and the saved cursor, so the
 cursor has to be honest: every history row it covers must have been seen.

 `hist` is the whole history, including what is logged while the connection
 lasts; every frame carries a stretch of it.
 */
module Cursors {
  import opened Protocol
  import opened Snapshots
  import opened Windows
  import opened SyncLog
  import opened Replica

  /** What the client has of the history, and where it believes to be. */
  datatype Side = Side(seen: set<nat>, cursor: int, saved: int, asked: set<int>, streamed: nat)

  /** One frame, as the stretch of the history it carries: the next `n` rows of
      the stream, `n` rows answering a pull the client sent, an empty answer
      from when the head was `n` rows, a snapshot showing the first `n`, the next
      `n` rows of the stream in a frame that fails to apply, or the ack of a push,
      on which the client pulls again. */
  datatype Frame =
    | Streamed(n: nat)
    | Answered(since: int, n: nat)
    | Empty(since: int, n: nat)
    | Full(n: nat)
    | Failed(n: nat)
    | Acked

  function Rows(a: nat, n: nat): (rows: set<nat>)
    ensures forall j :: j in rows <==> a <= j < a + n
  {
    if n == 0 then {} else Rows(a, n - 1) + {a + n - 1}
  }

  /** The seq the first `n` rows reach. */
  function Reach(hist: seq<LogRow>, n: nat): int
    requires n <= |hist|
  {
    Head(hist[..n])
  }

  predicate Legal(hist: seq<LogRow>, s: Side, f: Frame) {
    match f
    case Streamed(n) => 0 < n && s.streamed + n <= |hist|
    case Answered(since, n) => since in s.asked && 0 < n <= WINDOW && Upto(hist, since) + n <= |hist|
    case Empty(since, n) => since in s.asked && n <= Upto(hist, since)
    case Full(n) => n <= |hist|
    case Failed(n) => s.streamed + n <= |hist|
    case Acked => true
  }

  /** The cursor arms of `handle_msg`: applied, then moved, then saved if that
      was an advance, then the next pull. */
  function Moved(s: Side, rows: set<nat>, c: int): Side {
    s.(seen := s.seen + rows, cursor := c, saved := SavedAfter(s.cursor, s.saved, c), asked := s.asked + {c})
  }

  function Step(hist: seq<LogRow>, s: Side, f: Frame): Side
    requires Legal(hist, s, f)
  {
    match f
    case Streamed(n) =>
      Moved(s, Rows(s.streamed, n), Reach(hist, s.streamed + n)).(streamed := s.streamed + n)
    case Answered(since, n) => Moved(s, Rows(Upto(hist, since), n), Reach(hist, Upto(hist, since) + n))
    case Empty(since, n) => Moved(s, {}, Reach(hist, n)).(asked := s.asked)
    case Full(n) => Moved(s, Rows(0, n), Reach(hist, n))
    case Failed(n) => s.(streamed := s.streamed + n)
    case Acked => s.(asked := s.asked + {s.cursor})
  }

  /** A run of frames, if each is one the connection can bring. */
  function Run(hist: seq<LogRow>, s: Side, fs: seq<Frame>): Option<Side> {
    if |fs| == 0 then Some(s)
    else
      var before := Run(hist, s, fs[..|fs| - 1]);
      if before.Some? && Legal(hist, before.value, fs[|fs| - 1])
      then Some(Step(hist, before.value, fs[|fs| - 1]))
      else None
  }

  /** The events of a frame and the cursor it announces. */
  function Carried(hist: seq<LogRow>, s: Side, f: Frame): (seq<Op>, int)
    requires Legal(hist, s, f) && (f.Streamed? || f.Answered? || f.Empty?)
  {
    match f
    case Streamed(n) => (Ops(hist[s.streamed..s.streamed + n]), hist[s.streamed + n - 1].seqno)
    case Answered(since, n) =>
      (Ops(hist[Upto(hist, since)..Upto(hist, since) + n]), hist[Upto(hist, since) + n - 1].seqno)
    case Empty(_, n) => ([], if n == 0 then 0 else hist[n - 1].seqno)
  }

  lemma FrameMoves(hist: seq<LogRow>, s: Side, f: Frame)
    requires Legal(hist, s, f) && (f.Streamed? || f.Answered? || f.Empty?)
    ensures var (events, c), next := Carried(hist, s, f), Step(hist, s, f);
            && next.cursor == c && next.saved == (if c > s.cursor then c else s.saved)
            && next.asked == (if events != [] then s.asked + {c} else s.asked)
  {
  }

  lemma FailureStays(hist: seq<LogRow>, s: Side, f: Frame)
    requires s.streamed <= |hist| && Legal(hist, s, f)
    ensures var g := Failed(if f.Streamed? then f.n else 0);
            && Legal(hist, s, g) && Step(hist, s, g).cursor == s.cursor && Step(hist, s, g).saved == s.saved
            && Step(hist, s, g).asked == s.asked
  {
  }

  /** What the client does with a frame is a step of the run: the frame's own if
      every table applies, else a failed one's. */
  method ReceiveEvents(client: Client, hist: seq<LogRow>, s: Side, f: Frame, failAt: map<Table, nat>)
    returns (took: Frame, pulled: bool)
    requires s.streamed <= |hist| && Legal(hist, s, f) && (f.Streamed? || f.Answered? || f.Empty?)
    requires client.columns > 0 && client.cursor == s.cursor && client.saved == s.saved
    modifies client
    ensures var events := Carried(hist, s, f).0;
            && took == (if forall t | t in TablesOf(events) ::
                             t in client.sinks && Enough(t, OnTable(events, t), client.columns, failAt)
                        then f else Failed(if f.Streamed? then f.n else 0))
            && (took == f ==> client.db == ApplyWindow(old(client.db), events))
    ensures Legal(hist, s, took)
    ensures client.cursor == Step(hist, s, took).cursor && client.saved == Step(hist, s, took).saved
    ensures Step(hist, s, took).asked == if pulled then s.asked + {client.cursor} else s.asked
  {
    FrameMoves(hist, s, f);
    FailureStays(hist, s, f);
    hide *;
    var (events, c) := Carried(hist, s, f);
    var applied, pullNext := client.OnEvents(events, c, failAt);
    took, pulled := if applied then f else Failed(if f.Streamed? then f.n else 0), pullNext;
  }

  /** ... and so is a snapshot that applies; one that does not ends the
      connection. */
  method ReceiveSnapshot(client: Client, hist: seq<LogRow>, s: Side, n: nat, tables: seq<TableData>,
                         tombs: seq<Tombstone>, failTombs: Option<nat>, failAt: map<Table, nat>)
    returns (applied: bool)
    requires n <= |hist| && DistinctTombs(tombs)
    requires client.columns > 0 && client.cursor == s.cursor && client.saved == s.saved
    modifies client
    ensures applied ==>
              && client.db == Install(old(client.db), tables, tombs)
              && client.cursor == Step(hist, s, Full(n)).cursor && client.saved == Step(hist, s, Full(n)).saved
              && Step(hist, s, Full(n)).asked == s.asked + {client.cursor}
    ensures !applied ==> client.cursor == s.cursor && client.saved == s.saved
  {
    hide Enough, SinkTables, Install;
    applied := client.OnSnapshot(if n == 0 then 0 else hist[n - 1].seqno, tables, tombs, failTombs, failAt);
  }

  /** Whatever the cursor covers has been seen. */
  predicate Covers(hist: seq<LogRow>, seen: set<nat>, c: int) {
    forall j | 0 <= j < Upto(hist, c) :: j in seen
  }

  predicate Honest(hist: seq<LogRow>, s: Side) {
    Covers(hist, s.seen, s.saved)
  }

  /** A fresh connection: the first pull is out, the stream stands at the head
      the server had. */
  predicate Connected(hist: seq<LogRow>, s: Side) {
    s.saved == s.cursor && s.asked == {s.cursor} && Honest(hist, s)
  }

  /** Everything up to some frontier is seen, and nobody points past it. */
  ghost predicate Solid(hist: seq<LogRow>, s: Side, frontier: nat) {
    && frontier <= |hist| && (s.streamed <= frontier || s.streamed == |hist|)
    && (forall j | 0 <= j < frontier :: j in s.seen)
    && (forall c | c in s.asked :: Upto(hist, c) <= frontier)
    && Upto(hist, s.cursor) <= frontier && Upto(hist, s.saved) <= frontier
  }

  lemma ReachIsExact(hist: seq<LogRow>, n: nat)
    requires Ordered(hist) && n <= |hist|
    ensures Upto(hist, Reach(hist, n)) == n
  {
    UptoUnique(hist, Reach(hist, n), n);
  }

  /** A stretch that begins at or before the frontier moves it, if at all, to
      its own end. */
  lemma MoveKeepsSolid(hist: seq<LogRow>, s: Side, lo: nat, n: nat, frontier: nat) returns (next: nat)
    requires Ordered(hist) && Solid(hist, s, frontier) && lo <= frontier && lo + n <= |hist|
    ensures lo + n <= next && Solid(hist, Moved(s, Rows(lo, n), Reach(hist, lo + n)), next)
  {
    ReachIsExact(hist, lo + n);
    next := if lo + n > frontier then lo + n else frontier;
  }

  lemma StreamKeepsSolid(hist: seq<LogRow>, s: Side, n: nat, frontier: nat) returns (next: nat)
    requires Ordered(hist) && Solid(hist, s, frontier) && Legal(hist, s, Streamed(n))
    ensures Solid(hist, Step(hist, s, Streamed(n)), next)
  {
    next := MoveKeepsSolid(hist, s, s.streamed, n, frontier);
  }

  lemma AnswerKeepsSolid(hist: seq<LogRow>, s: Side, since: int, n: nat, frontier: nat) returns (next: nat)
    requires Ordered(hist) && Solid(hist, s, frontier) && Legal(hist, s, Answered(since, n))
    ensures Solid(hist, Step(hist, s, Answered(since, n)), next)
  {
    next := MoveKeepsSolid(hist, s, Upto(hist, since), n, frontier);
  }

  lemma EmptyKeepsSolid(hist: seq<LogRow>, s: Side, since: int, n: nat, frontier: nat)
    requires Ordered(hist) && Solid(hist, s, frontier) && Legal(hist, s, Empty(since, n))
    ensures Solid(hist, Step(hist, s, Empty(since, n)), frontier)
  {
    ReachIsExact(hist, n);
  }

  lemma StepKeepsSolid(hist: seq<LogRow>, s: Side, f: Frame, frontier: nat) returns (next: nat)
    requires Ordered(hist) && Solid(hist, s, frontier) && Legal(hist, s, f) && !f.Failed?
    ensures Solid(hist, Step(hist, s, f), next)
  {
    match f
    case Streamed(n) =>
      next := StreamKeepsSolid(hist, s, n, frontier);
    case Answered(since, n) =>
      next := AnswerKeepsSolid(hist, s, since, n, frontier);
    case Empty(since, n) =>
      EmptyKeepsSolid(hist, s, since, n, frontier);
      next := frontier;
    case Full(n) =>
      next := MoveKeepsSolid(hist, s, 0, n, frontier);
    case Acked =>
      next := frontier;
  }

  predicate AllApply(fs: seq<Frame>) {
    forall f | f in fs :: !f.Failed?
  }

  lemma {:induction false} RunKeepsSolid(hist: seq<LogRow>, s: Side, fs: seq<Frame>, frontier: nat) returns (next: nat)
    requires Ordered(hist) && Solid(hist, s, frontier) && Run(hist, s, fs).Some? && AllApply(fs)
    ensures Solid(hist, Run(hist, s, fs).value, next)
  {
    if |fs| == 0 {
      next := frontier;
    } else {
      assert fs[|fs| - 1] in fs;
      next := RunKeepsSolid(hist, s, fs[..|fs| - 1], frontier);
      next := StepKeepsSolid(hist, Run(hist, s, fs[..|fs| - 1]).value, fs[|fs| - 1], next);
    }
  }

  /** Crash safety while every frame applies, exactly: however stream, answers
      and snapshots interleave and wherever the connection ends, the saved cursor
      is honest, if and only if the client had already seen everything before the
      stream began, or nothing is streamed. */
  lemma {:induction false} CrashSafeExactly(hist: seq<LogRow>, s: Side)
    requires Ordered(hist) && Connected(hist, s) && s.streamed <= |hist|
    ensures (forall fs | Run(hist, s, fs).Some? && AllApply(fs) :: Honest(hist, Run(hist, s, fs).value)) <==>
            s.streamed == |hist| || forall j | 0 <= j < s.streamed :: j in s.seen
  {
    if s.streamed == |hist| || forall j | 0 <= j < s.streamed :: j in s.seen {
      forall fs | Run(hist, s, fs).Some? && AllApply(fs) ensures Honest(hist, Run(hist, s, fs).value) {
        var first := Upto(hist, s.saved);
        var end := RunKeepsSolid(hist, s, fs, if s.streamed < |hist| && first < s.streamed then s.streamed else first);
      }
    } else {
      StreamOvertakes(hist, s);
    }
  }

  /** The failing run: one streamed event before the first answer, and the
      connection ends. */
  lemma {:induction false} StreamOvertakes(hist: seq<LogRow>, s: Side)
    requires Ordered(hist) && Connected(hist, s) && s.streamed < |hist|
    requires exists j | 0 <= j < s.streamed :: j !in s.seen
    ensures Run(hist, s, [Streamed(1)]).Some? && !Honest(hist, Run(hist, s, [Streamed(1)]).value)
  {
    var fs := [Streamed(1)];
    assert fs[..0] == [];
    assert Run(hist, s, fs[..0]) == Some(s);
    var c, next := Reach(hist, s.streamed + 1), Step(hist, s, Streamed(1));
    assert Run(hist, s, fs) == Some(next);
    var j :| 0 <= j < s.streamed && j !in s.seen;
    ReachIsExact(hist, s.streamed + 1);
    UptoSplits(hist, s.cursor);
    assert c == hist[s.streamed].seqno > hist[j].seqno > s.cursor;
    assert next.saved == c && j !in next.seen && j < Upto(hist, c);
    assert !Covers(hist, next.seen, next.saved);
  }

  /** Over any run, a frame that leaves the cursor at or behind where it was
      leaves the saved one alone, and one that advances it saves where it got. */
  lemma {:induction false} SavesOnlyAdvances(hist: seq<LogRow>, s: Side, fs: seq<Frame>, i: nat)
    requires i < |fs| && Run(hist, s, fs[..i + 1]).Some?
    ensures Run(hist, s, fs[..i]).Some?
    ensures var before, now := Run(hist, s, fs[..i]).value, Run(hist, s, fs[..i + 1]).value;
            && (now.cursor <= before.cursor ==> now.saved == before.saved)
            && (now.cursor > before.cursor ==> now.saved == now.cursor)
  {
    assert fs[..i + 1][..i] == fs[..i];
  }

  /** So the saved cursor is the one the connection began with or one that some
      frame of the run moved the cursor to. */
  lemma {:induction false} SavedWasReached(hist: seq<LogRow>, s: Side, fs: seq<Frame>)
    requires Run(hist, s, fs).Some?
    ensures var end := Run(hist, s, fs).value;
            end.saved == s.saved || exists i | 0 < i <= |fs| ::
              Run(hist, s, fs[..i]).Some? && Run(hist, s, fs[..i]).value.cursor == end.saved
  {
    if |fs| == 0 {
    } else {
      var init := fs[..|fs| - 1];
      SavedWasReached(hist, s, init);
      assert fs[..|fs|] == fs;
      SavesOnlyAdvances(hist, s, fs, |fs| - 1);
      var end, before := Run(hist, s, fs).value, Run(hist, s, init).value;
      if end.cursor <= before.cursor && before.saved != s.saved {
        var i :| 0 < i <= |init| && Run(hist, s, init[..i]).Some?
                 && Run(hist, s, init[..i]).value.cursor == before.saved;
        assert init[..i] == fs[..i];
      } else if end.cursor > before.cursor {
        assert Run(hist, s, fs[..|fs|]).value.cursor == end.saved;
      }
    }
  }

  /** Wherever a run has got, an ack makes the client ask again from its cursor, so
      the rows after it may come next. */
  lemma AckAsksAgain(hist: seq<LogRow>, s: Side, fs: seq<Frame>, n: nat)
    requires Run(hist, s, fs).Some?
    ensures var end := Run(hist, s, fs).value;
            0 < n <= 1000 && Upto(hist, end.cursor) + n <= |hist| ==>
              Run(hist, s, fs + [Acked, Answered(end.cursor, n)]).Some?
  {
    var end := Run(hist, s, fs).value;
    var acked := fs + [Acked];
    assert acked[..|fs|] == fs;
    assert Run(hist, s, acked) == Some(end.(asked := end.asked + {end.cursor}));
    var all := fs + [Acked, Answered(end.cursor, n)];
    assert all[..|fs| + 1] == acked;
  }

  // ---------------------------------------------------------------------
  // When a frame may fail to apply
  // ---------------------------------------------------------------------

  /** All but the last row is seen, and that one too once anything points past
      it. */
  ghost predicate AllButLast(hist: seq<LogRow>, s: Side) {
    && (forall j | 0 <= j < |hist| - 1 :: j in s.seen)
    && (forall c | c in s.asked || c == s.cursor || c == s.saved ::
          Upto(hist, c) == |hist| ==> forall j | 0 <= j < |hist| :: j in s.seen)
  }

  lemma MoveKeepsAllButLast(hist: seq<LogRow>, s: Side, rows: set<nat>, n: nat)
    requires Ordered(hist) && AllButLast(hist, s) && n <= |hist|
    requires n == |hist| > 0 ==> |hist| - 1 in s.seen + rows
    ensures AllButLast(hist, Moved(s, rows, Reach(hist, n)))
  {
    ReachIsExact(hist, n);
  }

  lemma StepKeepsAllButLast(hist: seq<LogRow>, s: Side, f: Frame)
    requires Ordered(hist) && AllButLast(hist, s) && Legal(hist, s, f)
    ensures AllButLast(hist, Step(hist, s, f))
  {
    match f
    case Streamed(n) => MoveKeepsAllButLast(hist, s, Rows(s.streamed, n), s.streamed + n);
    case Answered(since, n) => MoveKeepsAllButLast(hist, s, Rows(Upto(hist, since), n), Upto(hist, since) + n);
    case Empty(since, n) => MoveKeepsAllButLast(hist, s, {}, n);
    case Full(n) => MoveKeepsAllButLast(hist, s, Rows(0, n), n);
    case Failed(n) =>
    case Acked =>
  }

  lemma {:induction false} RunKeepsAllButLast(hist: seq<LogRow>, s: Side, fs: seq<Frame>)
    requires Ordered(hist) && AllButLast(hist, s) && Run(hist, s, fs).Some?
    ensures AllButLast(hist, Run(hist, s, fs).value)
  {
    if |fs| == 0 {
    } else {
      RunKeepsAllButLast(hist, s, fs[..|fs| - 1]);
      StepKeepsAllButLast(hist, Run(hist, s, fs[..|fs| - 1]).value, fs[|fs| - 1]);
    }
  }

  /** With nothing left to stream no stream frame can fail. */
  lemma {:induction false} NothingToFail(hist: seq<LogRow>, s: Side, fs: seq<Frame>, frontier: nat) returns (next: nat)
    requires Ordered(hist) && Solid(hist, s, frontier) && Run(hist, s, fs).Some? && s.streamed == |hist|
    ensures Solid(hist, Run(hist, s, fs).value, next) && Run(hist, s, fs).value.streamed == |hist|
  {
    if |fs| == 0 {
      next := frontier;
    } else {
      var before, f := Run(hist, s, fs[..|fs| - 1]).value, fs[|fs| - 1];
      next := NothingToFail(hist, s, fs[..|fs| - 1], frontier);
      if !f.Failed? { next := StepKeepsSolid(hist, before, f, next); }
    }
  }

  /** The failing run: a streamed frame fails, so the cursor stays for the next
      pull to ask again, but the next streamed frame applies and moves it past. */
  lemma {:induction false} FailureIsOvertaken(hist: seq<LogRow>, s: Side, j: nat)
    requires Ordered(hist) && Connected(hist, s) && s.streamed <= j < |hist| - 1 && j !in s.seen
    ensures var fs := [Failed(j + 1 - s.streamed), Streamed(1)];
            Run(hist, s, fs).Some? && !Honest(hist, Run(hist, s, fs).value)
  {
    var fs := [Failed(j + 1 - s.streamed), Streamed(1)];
    var mid := s.(streamed := j + 1);
    assert fs[..1] == [Failed(j + 1 - s.streamed)] && fs[..1][..0] == [];
    assert Run(hist, s, fs[..1][..0]) == Some(s);
    assert Run(hist, s, fs[..1]) == Some(mid);
    var c, next := Reach(hist, j + 2), Step(hist, mid, Streamed(1));
    assert Run(hist, s, fs) == Some(next);
    ReachIsExact(hist, j + 2);
    UptoSplits(hist, s.cursor);
    assert c == hist[j + 1].seqno > hist[j].seqno > s.cursor;
    assert next.saved == c && j !in next.seen && j < Upto(hist, c);
    assert !Covers(hist, next.seen, next.saved);
  }

  /** So with frames that may fail to apply, the saved cursor stays honest in every
      interleaving if and only if nothing is streamed, or the client had already
      seen everything but perhaps the last row there will be. */
  lemma {:induction false} FailureSafeExactly(hist: seq<LogRow>, s: Side)
    requires Ordered(hist) && Connected(hist, s) && s.streamed <= |hist|
    ensures (forall fs | Run(hist, s, fs).Some? :: Honest(hist, Run(hist, s, fs).value)) <==>
            s.streamed == |hist| || forall j | 0 <= j < |hist| - 1 :: j in s.seen
  {
    if s.streamed == |hist| {
      forall fs | Run(hist, s, fs).Some? ensures Honest(hist, Run(hist, s, fs).value) {
        var end := NothingToFail(hist, s, fs, Upto(hist, s.saved));
      }
    } else if forall j | 0 <= j < |hist| - 1 :: j in s.seen {
      forall fs | Run(hist, s, fs).Some? ensures Honest(hist, Run(hist, s, fs).value) {
        RunKeepsAllButLast(hist, s, fs);
      }
    } else {
      var j :| 0 <= j < |hist| - 1 && j !in s.seen;
      if j < s.streamed {
        StreamOvertakes(hist, s);
      } else {
        FailureIsOvertaken(hist, s, j);
      }
    }
  }

  /** And what a dishonest cursor skips stays skipped: no later pull from it
      returns those rows. */
  lemma {:induction false} SkippedRowsStaySkipped(hist: seq<LogRow>, s: Side) returns (j: nat)
    requires Ordered(hist) && !Honest(hist, s)
    ensures j < Upto(hist, s.saved) && j !in s.seen
    ensures Flat(Chain(hist, s.saved)) == Ops(hist[Upto(hist, s.saved)..])
  {
    j :| 0 <= j < Upto(hist, s.saved) && j !in s.seen;
    ChainIsExact(hist, s.saved);
  }
}
