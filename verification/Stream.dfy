/**
 The stream driver of one connection: woken by the bus or by the fallback tick,
 it pulls from its own cursor and sends what it finds.
 */
module Stream {
  import opened Protocol
  import opened SyncLog
  import opened Server
  import opened Session
  import opened WholeRun
  import opened Wake

  /** What the driver hands the socket loop. */
  datatype Tick = Msg(events: seq<Op>, cursor: int) | Dead

  /** Why the loop turns. */
  datatype Trigger = Interval | Woken(seqno: int) | BusGone

  /** How its pull goes: it reads, with pushes landing between its two reads,
      or it fails or times out. */
  datatype Outcome = Reads(race: seq<Op>) | Fails

  /** Every op sent so far. */
  function Streamed(out: seq<Tick>): seq<Op> {
    if |out| == 0 then []
    else
      match out[|out| - 1]
      case Msg(events, _) => Streamed(out[..|out| - 1]) + events
      case Dead => Streamed(out[..|out| - 1])
  }

  /** The history position the driver stands at: what is before it was streamed
      or lies before the connection. */
  function Position(hist: seq<LogRow>, from: nat, cursor: int): nat {
    Max(from, Upto(hist, cursor))
  }

  /** Everything sent is the history from `from` on, in order, up to what the
      cursor covers; each message's cursor names its last row; and nothing
      follows a failure. */
  ghost predicate StreamExact(hist: seq<LogRow>, from: nat, cursor: int, out: seq<Tick>, running: bool) {
    && Ordered(hist) && from + |Streamed(out)| <= |hist|
    && Streamed(out) == Ops(hist[from..from + |Streamed(out)|])
    && (running ==> from + |Streamed(out)| == Position(hist, from, cursor) && 0 <= cursor <= Head(hist))
    && CursorsNameRows(hist, from, out)
    && (forall i | 0 <= i < |out| && out[i].Dead? :: i == |out| - 1 && !running)
  }

  ghost predicate CursorsNameRows(hist: seq<LogRow>, from: nat, out: seq<Tick>) {
    |out| == 0 ||
    (&& CursorsNameRows(hist, from, out[..|out| - 1])
     && (out[|out| - 1].Msg? ==>
           var n := from + |Streamed(out)|;
           0 < |out[|out| - 1].events| <= WINDOW && 0 < n <= |hist| && hist[n - 1].seqno == out[|out| - 1].cursor))
  }

  // ---------------------------------------------------------------------
  // What keeps the stream exact
  // ---------------------------------------------------------------------

  lemma {:induction false} CursorsStillNameRows(hist: seq<LogRow>, more: seq<LogRow>, from: nat, out: seq<Tick>)
    requires CursorsNameRows(hist, from, out)
    ensures CursorsNameRows(hist + more, from, out)
  {
    if |out| == 0 {
    } else {
      CursorsStillNameRows(hist, more, from, out[..|out| - 1]);
    }
  }

  lemma UptoOfAppend(hist: seq<LogRow>, more: seq<LogRow>, c: int)
    requires Ordered(hist + more) && c <= Head(hist)
    requires |hist| > 0 || c <= 0
    ensures Upto(hist + more, c) == Upto(hist, c)
  {
    var all := hist + more;
    assert Ordered(hist) by {
      assert forall i | 0 <= i < |hist| :: hist[i] == all[i];
    }
    UptoSplits(hist, c);
    forall j | 0 <= j < |all| ensures j < Upto(hist, c) <==> all[j].seqno <= c {
      if j < |hist| { assert all[j] == hist[j]; }
      else if |hist| > 0 { assert all[|hist| - 1] == hist[|hist| - 1]; }
    }
    UptoUnique(all, c, Upto(hist, c));
  }

  /** Pushes leave it exact: what they log is past the cursor. */
  lemma PushKeepsStream(hist: seq<LogRow>, more: seq<LogRow>, from: nat, cursor: int, out: seq<Tick>, running: bool)
    requires StreamExact(hist, from, cursor, out, running) && Ordered(hist + more)
    ensures StreamExact(hist + more, from, cursor, out, running)
  {
    CursorsStillNameRows(hist, more, from, out);
    SliceOfPrefix(hist, more, from, from + |Streamed(out)|);
    HeadOnlyGrows(hist, more);
    if running {
      UptoOfAppend(hist, more, cursor);
    }
  }

  lemma SliceOfPrefix<T>(a: seq<T>, b: seq<T>, m: nat, n: nat)
    requires m <= n <= |a|
    ensures (a + b)[m..n] == a[m..n]
  {
  }

  lemma HeadOnlyGrows(hist: seq<LogRow>, more: seq<LogRow>)
    requires Ordered(hist + more)
    ensures Head(hist) <= Head(hist + more)
  {
    var all := hist + more;
    if |hist| > 0 { assert all[|hist| - 1] == hist[|hist| - 1]; }
  }

  /** No unsent row was pruned. A driver that connected past what its own cursor
      covers connected to a log pruned that far. */
  ghost predicate NothingUnsentPruned(hist: seq<LogRow>, pruned: nat, from: nat, cursor: int) {
    && pruned <= Position(hist, from, cursor)
    && (Upto(hist, cursor) < from ==> from <= pruned)
  }

  /** The log rows past the cursor are the history from the position on. */
  lemma LogPastCursor(hist: seq<LogRow>, pruned: nat, from: nat, cursor: int)
    requires Ordered(hist) && pruned <= |hist| && from <= |hist| && NothingUnsentPruned(hist, pruned, from, cursor)
    ensures Ordered(hist[pruned..])
    ensures hist[pruned..][Upto(hist[pruned..], cursor)..] == hist[Position(hist, from, cursor)..]
  {
    assert Max(pruned, Upto(hist, cursor)) == Position(hist, from, cursor);
    TailOrdered(hist, pruned);
    LogIsTail(hist, pruned, cursor);
  }

  /** What a pull of the driver finds is the next stretch of the history. */
  lemma NextStretch(head: int, log: seq<LogRow>, hist: seq<LogRow>, p: nat, cursor: int)
    requires Ordered(log) && log != [] && cursor < head <= Head(log)
    requires p <= |hist| && log[Upto(log, cursor)..] == hist[p..]
    ensures var w := PullSince(head, log, cursor);
            p + |w.events| <= |hist| && StretchAt(hist, p, cursor, w)
  {
    var m := Upto(log, cursor);
    var n := PullStretch(head, log, cursor);
    SameSlices(log, m, hist, p, n);
    LastOfSlices(log, m, hist, p, n);
  }

  lemma PullStretch(head: int, log: seq<LogRow>, cursor: int) returns (n: nat)
    requires Ordered(log) && log != [] && cursor < head <= Head(log)
    ensures var w, m := PullSince(head, log, cursor), Upto(log, cursor);
            && 0 < n <= WINDOW && m + n <= |log| && w.events == Ops(log[m..m + n]) && |w.events| == n
            && log[m + n - 1].seqno == w.cursor && cursor < w.cursor
  {
    UptoSplits(log, cursor);
    PullReaches(log, cursor);
    n := |PullRows(log, cursor)|;
  }

  lemma LastOfSlices<T>(a: seq<T>, m: nat, b: seq<T>, p: nat, n: nat)
    requires m + n <= |a| && p + n <= |b| && a[m..m + n] == b[p..p + n] && n > 0
    ensures a[m + n - 1] == b[p + n - 1]
  {
    assert a[m..m + n][n - 1] == b[p..p + n][n - 1];
  }

  lemma SameSlices<T>(a: seq<T>, m: nat, b: seq<T>, p: nat, n: nat)
    requires m <= |a| && p <= |b| && a[m..] == b[p..] && m + n <= |a|
    ensures p + n <= |b| && a[m..m + n] == b[p..p + n]
  {
    assert |a[m..]| == |b[p..]|;
    assert a[m..][..n] == a[m..m + n] && b[p..][..n] == b[p..p + n];
  }

  /** One pull's worth more keeps it exact. */
  lemma PullKeepsStream(hist: seq<LogRow>, from: nat, cursor: int, out: seq<Tick>, w: Window, p: nat)
    requires StreamExact(hist, from, cursor, out, true) && p == from + |Streamed(out)|
    requires p + |w.events| <= |hist| && StretchAt(hist, p, cursor, w)
    ensures StreamExact(hist, from, w.cursor, out + [Msg(w.events, w.cursor)], true)
  {
    var all, end := out + [Msg(w.events, w.cursor)], p + |w.events|;
    StreamedLast(out, Msg(w.events, w.cursor));
    assert Streamed(all) == Ops(hist[from..end]) && from + |Streamed(all)| == end by { GlueOps(hist, from, p, end); }
    assert CursorsNameRows(hist, from, all);
    hide CursorsNameRows, Streamed, StretchAt;
    RowsReached(hist, from, w.cursor, end);
  }

  lemma RowsReached(hist: seq<LogRow>, from: nat, cursor: int, end: nat)
    requires Ordered(hist) && from < end <= |hist| && hist[end - 1].seqno == cursor
    ensures Position(hist, from, cursor) == end && 0 <= cursor <= Head(hist)
  {
    CursorAtRow(hist, end - 1);
  }

  lemma StreamedLast(out: seq<Tick>, last: Tick)
    requires last.Msg?
    ensures (out + [last])[..|out|] == out && Streamed(out + [last]) == Streamed(out) + last.events
  {
    assert (out + [last])[..|out|] == out;
  }

  lemma GlueOps(hist: seq<LogRow>, a: nat, b: nat, c: nat)
    requires a <= b <= c <= |hist|
    ensures Ops(hist[a..b]) + Ops(hist[b..c]) == Ops(hist[a..c])
  {
  }

  lemma CursorAtRow(hist: seq<LogRow>, j: nat)
    requires Ordered(hist) && j < |hist|
    ensures Upto(hist, hist[j].seqno) == j + 1 && hist[j].seqno <= Head(hist)
  {
    UptoUnique(hist, hist[j].seqno, j + 1);
  }

  /** A stop keeps it exact, with or without the failure said. */
  lemma StopKeepsStream(hist: seq<LogRow>, from: nat, cursor: int, out: seq<Tick>, cursor': int)
    requires StreamExact(hist, from, cursor, out, true)
    ensures StreamExact(hist, from, cursor', out, false)
    ensures StreamExact(hist, from, cursor', out + [Dead], false)
  {
    assert (out + [Dead])[..|out|] == out;
  }

  // ---------------------------------------------------------------------
  // The driver
  // ---------------------------------------------------------------------

  /** Does the trigger make the driver pull? The tick and the arm sentinel
      always do, a real seq only if it is past the cursor. */
  predicate Pulls(t: Trigger, cursor: int) {
    match t
    case Interval => true
    case Woken(seqno) => seqno == 0 || seqno > cursor
    case BusGone => false
  }

  ghost predicate AuditStream(hist: seq<LogRow>, pruned: nat, from: nat, cursor: int, out: seq<Tick>,
                             running: bool)
  {
    StreamExact(hist, from, cursor, out, running) && (running ==> NothingUnsentPruned(hist, pruned, from, cursor))
  }

  /** The position a connection starts from: its cursor is the head it read, or
      0 when the read timed out. */
  lemma ConnectKeepsStream(hist: seq<LogRow>, pruned: nat, cursor: int)
    requires Ordered(hist) && pruned <= |hist| && (cursor == 0 || cursor == Head(hist[pruned..]))
    ensures AuditStream(hist, pruned, Max(pruned, Upto(hist, cursor)), cursor, [], true)
  {
    UptoSplits(hist, cursor);
    if pruned < |hist| { assert hist[pruned..][|hist| - pruned - 1] == hist[|hist| - 1]; }
    if |hist| > 0 { assert hist[|hist| - 1].seqno >= 1; }
  }

  lemma PushKeepsAudit(hist: seq<LogRow>, more: seq<LogRow>, pruned: nat, from: nat, cursor: int,
                       out: seq<Tick>, running: bool)
    requires AuditStream(hist, pruned, from, cursor, out, running) && Ordered(hist + more)
    ensures AuditStream(hist + more, pruned, from, cursor, out, running)
  {
    PushKeepsStream(hist, more, from, cursor, out, running);
    if running { UptoOfAppend(hist, more, cursor); }
  }

  /** A non-empty window, delivered or not. */
  lemma WindowKeepsAudit(head: int, hist: seq<LogRow>, pruned: nat, from: nat, cursor: int, out: seq<Tick>)
    requires AuditStream(hist, pruned, from, cursor, out, true)
    requires pruned <= |hist| && head <= Head(hist[pruned..]) && PullSince(head, hist[pruned..], cursor).events != []
    ensures var w := PullSince(head, hist[pruned..], cursor);
            && AuditStream(hist, pruned, from, w.cursor, out + [Msg(w.events, w.cursor)], true)
            && AuditStream(hist, pruned, from, w.cursor, out, false)
  {
    hide AuditStream;
    var p := from + |Streamed(out)|;
    WindowIsNextStretch(head, hist, pruned, from, cursor, out, p);
    StretchKeepsAudit(hist, pruned, from, cursor, out, PullSince(head, hist[pruned..], cursor), p);
  }

  lemma WindowIsNextStretch(head: int, hist: seq<LogRow>, pruned: nat, from: nat, cursor: int, out: seq<Tick>, p: nat)
    requires AuditStream(hist, pruned, from, cursor, out, true) && p == from + |Streamed(out)|
    requires pruned <= |hist| && head <= Head(hist[pruned..]) && PullSince(head, hist[pruned..], cursor).events != []
    ensures var w := PullSince(head, hist[pruned..], cursor); p + |w.events| <= |hist| && StretchAt(hist, p, cursor, w)
  {
    assert p == Position(hist, from, cursor);
    LogPastCursor(hist, pruned, from, cursor);
    EventsNeedRows(head, hist[pruned..], cursor);
    NextStretch(head, hist[pruned..], hist, p, cursor);
  }

  /** The window holds exactly the history rows from `p` on. */
  predicate StretchAt(hist: seq<LogRow>, p: nat, cursor: int, w: Window)
    requires p + |w.events| <= |hist|
  {
    && 0 < |w.events| <= WINDOW && w.events == Ops(hist[p..p + |w.events|])
    && hist[p + |w.events| - 1].seqno == w.cursor && cursor < w.cursor
  }

  lemma EventsNeedRows(head: int, log: seq<LogRow>, cursor: int)
    requires PullSince(head, log, cursor).events != []
    ensures log != [] && cursor < head
  {
    assert log == [] ==> |PullRows(log, cursor)| == 0;
  }

  lemma StretchKeepsAudit(hist: seq<LogRow>, pruned: nat, from: nat, cursor: int, out: seq<Tick>, w: Window, p: nat)
    requires AuditStream(hist, pruned, from, cursor, out, true) && p == from + |Streamed(out)|
    requires p + |w.events| <= |hist| && StretchAt(hist, p, cursor, w)
    ensures AuditStream(hist, pruned, from, w.cursor, out + [Msg(w.events, w.cursor)], true)
    ensures AuditStream(hist, pruned, from, w.cursor, out, false)
  {
    assert Ordered(hist) && p == Position(hist, from, cursor);
    hide StreamExact;
    PullKeepsStream(hist, from, cursor, out, w, p);
    StopKeepsStream(hist, from, cursor, out, w.cursor);
    StretchKeepsUnsent(hist, pruned, from, cursor, w, p);
  }

  lemma StretchKeepsUnsent(hist: seq<LogRow>, pruned: nat, from: nat, cursor: int, w: Window, p: nat)
    requires Ordered(hist) && NothingUnsentPruned(hist, pruned, from, cursor) && p == Position(hist, from, cursor)
    requires p + |w.events| <= |hist| && StretchAt(hist, p, cursor, w)
    ensures NothingUnsentPruned(hist, pruned, from, w.cursor)
  {
    CursorAtRow(hist, p + |w.events| - 1);
  }

  class Driver {
    const server: Backend
    var streamCursor: int
    /** Everything sent on the outbound channel. */
    var out: seq<Tick>
    var running: bool
    /** Where in the history the stream begins. */
    ghost var from: nat
    /** No prune took a row that was still to be sent. */
    ghost var intact: bool

    ghost predicate Valid()
      reads this, server
    {
      && server.Valid()
      && (intact ==> AuditStream(server.hist, server.pruned, from, streamCursor, out, running))
    }

    /** `handle_socket`: start at the log head, or at 0 if reading it timed
        out. */
    constructor (server: Backend, read: bool)
      requires server.Valid()
      ensures Valid() && intact && running && out == [] && this.server == server
      ensures streamCursor == if read then Head(server.log) else 0
      ensures from == Max(server.pruned, Upto(server.hist, streamCursor))
    {
      this.server := server;
      out, running := [], true;
      streamCursor := if read then Head(server.log) else 0;
      from, intact := Max(server.pruned, Upto(server.hist, if read then Head(server.log) else 0)), true;
      new;
      ConnectKeepsStream(server.hist, server.pruned, streamCursor);
    }

    /** One turn of the loop. */
    method Turn(trigger: Trigger, outcome: Outcome, delivered: bool)
      requires Valid() && running
      requires outcome.Reads? ==> forall op | op in outcome.race :: op.table in server.tables
      modifies this`streamCursor, this`out, this`running, server
      ensures Valid() && server.pruned == old(server.pruned)
      ensures trigger.BusGone? ==> !running
      ensures trigger.BusGone? || (trigger.Woken? && trigger.seqno != 0 && trigger.seqno <= old(streamCursor)) ==>
                && out == old(out) && streamCursor == old(streamCursor)
                && server.hist == old(server.hist) && server.log == old(server.log)
      ensures trigger.Woken? && trigger.seqno != 0 && trigger.seqno <= old(streamCursor) ==> running
      ensures (trigger.Interval? || (trigger.Woken? && (trigger.seqno == 0 || trigger.seqno > old(streamCursor))))
              && outcome.Fails? ==>
                && !running && out == old(out) + [Dead] && streamCursor == old(streamCursor)
                && server.hist == old(server.hist) && server.log == old(server.log)
      ensures (trigger.Interval? || (trigger.Woken? && (trigger.seqno == 0 || trigger.seqno > old(streamCursor))))
              && outcome.Reads? ==>
                var w := PullSince(Head(old(server.log)), server.log, old(streamCursor));
                && running == (delivered || w.events == [])
                && streamCursor == (if w.events == [] then old(streamCursor) else w.cursor)
                && out == old(out) + (if delivered && w.events != [] then [Msg(w.events, w.cursor)] else [])
                && Ops(server.hist) == Ops(old(server.hist)) + Accepted(outcome.race)
                && (outcome.race == [] ==> server.log == old(server.log) && server.hist == old(server.hist))
    {
      if trigger.BusGone? {
        Stop();
        return;
      }
      if !Pulls(trigger, streamCursor) {
        return;
      }
      match outcome {
        case Fails =>
          Fail();
        case Reads(race) =>
          Pull(race, delivered);
      }
    }

    method Fail()
      requires Valid() && running
      modifies this`out, this`running
      ensures Valid() && !running && out == old(out) + [Dead]
    {
      if intact { StopKeepsStream(server.hist, from, streamCursor, out, streamCursor); }
      out := out + [Dead];
      running := false;
    }

    /** A pull that reads: the head first, the rows next. */
    method Pull(race: seq<Op>, delivered: bool)
      requires Valid() && running && forall op | op in race :: op.table in server.tables
      modifies this`streamCursor, this`out, this`running, server
      ensures Valid() && server.pruned == old(server.pruned)
      ensures Ops(server.hist) == Ops(old(server.hist)) + Accepted(race)
      ensures race == [] ==> server.log == old(server.log) && server.hist == old(server.hist)
      ensures var w := PullSince(Head(old(server.log)), server.log, old(streamCursor));
              && running == (delivered || w.events == [])
              && streamCursor == (if w.events == [] then old(streamCursor) else w.cursor)
              && out == old(out) + (if delivered && w.events != [] then [Msg(w.events, w.cursor)] else [])
    {
      var head := Head(server.log);
      Pushed(race, None);
      var w := PullSince(head, server.log, streamCursor);
      if w.events != [] {
        Advance(head, delivered);
      }
    }

    /** A window that is not empty moves the cursor and is sent. */
    method Advance(head: int, delivered: bool)
      requires Valid() && running && head <= Head(server.log)
      requires PullSince(head, server.log, streamCursor).events != []
      modifies this`streamCursor, this`out, this`running
      ensures Valid() && running == delivered
      ensures var w := PullSince(head, server.log, old(streamCursor));
              streamCursor == w.cursor && out == old(out) + (if delivered then [Msg(w.events, w.cursor)] else [])
    {
      hide AuditStream, LogOk, AuditSnapshots;
      var w := PullSince(head, server.log, streamCursor);
      if intact {
        PullFacts(head);
        WindowKeepsAudit(head, server.hist, server.pruned, from, streamCursor, out);
      }
      streamCursor := w.cursor;
      if delivered {
        out := out + [Msg(w.events, w.cursor)];
      } else {
        running := false;
      }
    }

    lemma PullFacts(head: int)
      requires server.Valid() && head <= Head(server.log)
      ensures server.pruned <= |server.hist| && server.log == server.hist[server.pruned..]
      ensures head <= Head(server.hist[server.pruned..])
    {
    }

    method Stop()
      requires Valid() && running
      modifies this`running
      ensures Valid() && !running
    {
      if intact { StopKeepsStream(server.hist, from, streamCursor, out, streamCursor); }
      running := false;
    }

    /** A push by anyone. */
    method Pushed(ops: seq<Op>, failAt: Option<nat>)
      requires Valid() && forall op | op in ops :: op.table in server.tables
      modifies server
      ensures Valid() && server.pruned == old(server.pruned)
      ensures failAt.None? ==> Ops(server.hist) == Ops(old(server.hist)) + Accepted(ops)
      ensures failAt.None? && ops == [] ==> server.log == old(server.log) && server.hist == old(server.hist)
      ensures Head(old(server.log)) <= Head(server.log)
    {
      hide AuditStream, AuditSnapshots;
      ghost var hist, rows := server.hist, NewRows(Accepted(ops), server.nextSeq, server.now);
      AppendedOps(hist, Accepted(ops), server.nextSeq, server.now);
      var cursor := server.Push(ops, failAt);
      if intact && cursor.Some? {
        HistoryOrdered();
        PushKeepsAudit(hist, rows, server.pruned, from, streamCursor, out, running);
      }
    }

    lemma HistoryOrdered()
      requires server.Valid()
      ensures Ordered(server.hist) && server.pruned <= |server.hist|
    {
    }

    method Pruned(cutoff: int)
      requires Valid()
      modifies this`intact, server
      ensures Valid() && server.pruned >= old(server.pruned) && server.hist == old(server.hist)
      ensures intact == (old(intact) && (running ==> server.pruned <= Position(server.hist, from, streamCursor)))
    {
      var removed := server.Prune(cutoff);
      intact := intact && (running ==> server.pruned <= Position(server.hist, from, streamCursor));
    }

    /** Any session. As long as no prune takes a row that is still to be sent,
        what was sent is exactly the history between the connection and the
        cursor, in order, and nothing follows a failure. */
    method Run(events: seq<Event>)
      requires Valid() && forall e | e in events :: Typed(e, server.tables)
      modifies this, server
      ensures Valid() && from == old(from)
      ensures intact ==> StreamExact(server.hist, from, streamCursor, out, running)
      ensures old(out) <= out && (!old(running) ==> out == old(out))
    {
      hide LogOk, AuditSnapshots, StreamExact;
      for i := 0 to |events|
        invariant Valid() && from == old(from)
        invariant old(out) <= out && (!old(running) ==> !running && out == old(out))
      {
        assert events[i] in events && Typed(events[i], server.tables);
        match events[i] {
          case Looped(trigger, outcome, delivered) =>
            if running { Turn(trigger, outcome, delivered); }
          case PushBy(ops, failAt) =>
            Pushed(ops, failAt);
          case PruneAt(cutoff) =>
            Pruned(cutoff);
          case Waited(seconds) =>
            server.Elapse(seconds);
        }
      }
    }

    /** With no new pushes, successful ticks reach the head, in as few turns as
        the window allows, and everything is streamed. */
    method TickUntilCaughtUp() returns (ticks: nat)
      requires Valid() && running && intact && server.log != []
      modifies this`streamCursor, this`out, this`running, server
      ensures Valid() && running && server.hist == old(server.hist) && Ordered(server.log)
      ensures ticks == (Backlog(old(server.log), old(streamCursor)) + 999) / 1000
      ensures Streamed(out) == Ops(server.hist[from..])
    {
      hide AuditStream, LogOk, AuditSnapshots;
      server.LogOrdered();
      ghost var log := server.log;
      ticks := 0;
      while streamCursor < Head(server.log)
        invariant Valid() && running && server.log == log && server.hist == old(server.hist)
        invariant ticks + WindowsFor(Backlog(log, streamCursor)) == WindowsFor(Backlog(log, old(streamCursor)))
        decreases Backlog(log, streamCursor)
      {
        GoodTick();
        ticks := ticks + 1;
      }
      PullAtHead(log, streamCursor);
      AllStreamed();
    }

    /** A tick, the arm sentinel or a wake past the cursor, on a server that is
        ahead and at rest: the next rows are sent. */
    method GoodTurn(trigger: Trigger)
      requires Valid() && running && server.log != [] && Ordered(server.log) && streamCursor < Head(server.log)
      requires trigger == Interval || trigger == Woken(0) || (trigger.Woken? && trigger.seqno > streamCursor)
      modifies this`streamCursor, this`out, this`running, server
      ensures Valid() && running && server.log == old(server.log) && server.hist == old(server.hist)
      ensures SentNext(server.log, old(streamCursor), streamCursor, old(out), out)
    {
      WindowIsSent(server.log, streamCursor, out);
      hide *;
      Turn(trigger, Reads([]), true);
    }

    method GoodTick()
      requires Valid() && running && server.log != [] && Ordered(server.log) && streamCursor < Head(server.log)
      modifies this`streamCursor, this`out, this`running, server
      ensures Valid() && running && server.log == old(server.log) && server.hist == old(server.hist)
      ensures Backlog(server.log, streamCursor) < Backlog(server.log, old(streamCursor))
      ensures WindowsFor(Backlog(server.log, old(streamCursor))) == 1 + WindowsFor(Backlog(server.log, streamCursor))
    {
      hide AuditStream, StreamExact, LogOk, AuditSnapshots, Ordered, PullSince, Upto, Ops;
      GoodTurn(Interval);
    }

    lemma AllStreamed()
      requires Valid() && running && intact && server.log != [] && streamCursor >= Head(server.log)
      ensures Streamed(out) == Ops(server.hist[from..])
    {
      assert server.log[|server.log| - 1] == server.hist[|server.hist| - 1];
      UptoSplits(server.hist, streamCursor);
    }
  }

  /** One event of a session. */
  datatype Event =
    | Looped(trigger: Trigger, outcome: Outcome, delivered: bool)
    | PushBy(ops: seq<Op>, failAt: Option<nat>)
    | PruneAt(cutoff: int)
    | Waited(seconds: nat)

  predicate Typed(e: Event, tables: seq<Table>) {
    match e
    case Looped(_, Reads(race), _) => forall op | op in race :: op.table in tables
    case PushBy(ops, _) => forall op | op in ops :: op.table in tables
    case _ => true
  }

  /** The log rows after the cursor `c` were sent in one message, a full window
      of them or as many as there are, and the cursor moved to the last. */
  ghost predicate SentNext(log: seq<LogRow>, c: int, now: int, before: seq<Tick>, out: seq<Tick>) {
    var m, n := Upto(log, c), Upto(log, now);
    && m < n <= |log| && n == (if m + 1000 < |log| then m + 1000 else |log|)
    && now == log[n - 1].seqno && out == before + [Msg(Ops(log[m..n]), now)]
  }

  lemma WindowIsSent(log: seq<LogRow>, c: int, out: seq<Tick>)
    requires Ordered(log) && log != [] && c < Head(log)
    ensures var w := PullSince(Head(log), log, c);
            w.events != [] && SentNext(log, c, w.cursor, out, out + [Msg(w.events, w.cursor)])
  {
    PullIsExact(Head(log), log, c);
    var w := PullSince(Head(log), log, c);
    UptoSplits(log, w.cursor);
    UptoSplits(log, Head(log));
  }

  /** A wake catches the stream up exactly when the backlog is one window; the
      rest of a longer one waits for the next trigger. */
  lemma OneWakeCatchesUpExactly(log: seq<LogRow>, c: int)
    requires Ordered(log) && log != [] && c < Head(log)
    ensures PullSince(Head(log), log, c).cursor == Head(log) <==> Backlog(log, c) <= 1000
  {
    PullIsExact(Head(log), log, c);
    UptoSplits(log, PullSince(Head(log), log, c).cursor);
    PullAtHead(log, Head(log));
  }

  /** A wake the driver ignores is old news: every row of the burst it stands
      for lies before the stream or has been sent. */
  lemma IgnoredWakeIsOldNews(hist: seq<LogRow>, from: nat, cursor: int, out: seq<Tick>, wake: int,
                             burst: seq<int>, j: nat)
    requires StreamExact(hist, from, cursor, out, true) && IsMax(wake, burst) && !Pulls(Woken(wake), cursor)
    requires j < |hist| && hist[j].seqno in burst
    ensures j < from || (j - from < |Streamed(out)| && Streamed(out)[j - from] == hist[j].op)
  {
    UptoSplits(hist, cursor);
    assert hist[j].seqno <= wake <= cursor;
    if j >= from {
      assert hist[from..from + |Streamed(out)|][j - from] == hist[j];
    }
  }
}
