/**
 The sync log and how it is read. Rows commit in seq order with non-decreasing
 arrival times; a rolled-back push leaves a gap in the seqs.
 */
module SyncLog {
  import opened Protocol
  import opened Windows

  /** The row limit of one pull. */
  const WINDOW: nat := 1000

  datatype LogRow = LogRow(seqno: int, op: Op, loggedAt: int)

  ghost predicate Ordered(log: seq<LogRow>) {
    && (forall i | 0 <= i < |log| :: log[i].seqno >= 1)
    && (forall i, j | 0 <= i < j < |log| :: log[i].seqno < log[j].seqno && log[i].loggedAt <= log[j].loggedAt)
  }

  function Ops(log: seq<LogRow>): seq<Op> {
    seq(|log|, i requires 0 <= i < |log| => log[i].op)
  }

  /** `COALESCE(MAX(seq), 0)`. */
  function Head(log: seq<LogRow>): (h: int)
    ensures Ordered(log) ==> forall i | 0 <= i < |log| :: log[i].seqno <= h
  {
    if |log| == 0 then 0 else log[|log| - 1].seqno
  }

  /** `MIN(seq)`. */
  function Floor(log: seq<LogRow>): (f: Option<int>)
    ensures Ordered(log) && f.Some? ==> forall i | 0 <= i < |log| :: f.value <= log[i].seqno
  {
    if |log| == 0 then None else Some(log[0].seqno)
  }

  /** How many rows a cursor covers. */
  function Upto(log: seq<LogRow>, c: int): (n: nat)
    ensures n <= |log|
  {
    if |log| == 0 then 0
    else if log[|log| - 1].seqno <= c then |log|
    else Upto(log[..|log| - 1], c)
  }

  lemma {:induction false} UptoSplits(log: seq<LogRow>, c: int)
    requires Ordered(log)
    ensures forall j | 0 <= j < |log| :: j < Upto(log, c) <==> log[j].seqno <= c
  {
    if |log| == 0 || log[|log| - 1].seqno <= c {
    } else {
      var init := log[..|log| - 1];
      UptoSplits(init, c);
      assert forall j | 0 <= j < |init| :: init[j] == log[j];
    }
  }

  lemma UptoUnique(log: seq<LogRow>, c: int, n: nat)
    requires Ordered(log) && n <= |log|
    requires forall j | 0 <= j < |log| :: j < n <==> log[j].seqno <= c
    ensures Upto(log, c) == n
  {
    UptoSplits(log, c);
    var m := Upto(log, c);
    var lo := if m < n then m else n;
    if lo < |log| {
      assert lo < n <==> log[lo].seqno <= c;
      assert lo < m <==> log[lo].seqno <= c;
    }
  }

  /** The rows of one pull: `WHERE seq > since ORDER BY seq LIMIT 1000`. */
  function PullRows(log: seq<LogRow>, since: int): seq<LogRow> {
    var rest := log[Upto(log, since)..];
    if |rest| <= WINDOW then rest else rest[..WINDOW]
  }

  datatype Window = Window(events: seq<Op>, cursor: int)

  /** `pull_since`: the head is read first, the rows next, so the log may have
      grown in between. */
  function PullSince(head: int, log: seq<LogRow>, since: int): Window {
    if since >= head then Window([], head)
    else
      var rows := PullRows(log, since);
      Window(Ops(rows), if rows == [] then head else rows[|rows| - 1].seqno)
  }

  lemma PullReaches(log: seq<LogRow>, since: int)
    requires Ordered(log) && Upto(log, since) < |log|
    ensures var n, rows := Upto(log, since), PullRows(log, since);
            && 0 < |rows| <= WINDOW && rows == log[n..n + |rows|]
            && since < rows[|rows| - 1].seqno && Upto(log, rows[|rows| - 1].seqno) == n + |rows|
            && (|rows| < WINDOW ==> n + |rows| == |log|)
  {
    UptoSplits(log, since);
    var n, rows := Upto(log, since), PullRows(log, since);
    assert rows == log[n..n + |rows|];
    assert rows[|rows| - 1] == log[n + |rows| - 1];
    UptoUnique(log, rows[|rows| - 1].seqno, n + |rows|);
  }

  /** A pull reaches exactly the rows between the old cursor and the new one,
      in order, and never moves past a row it did not return. The head it read
      may be an older one: pushes land between its two reads. */
  lemma PullIsExact(head: int, log: seq<LogRow>, since: int)
    requires Ordered(log) && |log| > 0 && since < head <= Head(log)
    ensures var w := PullSince(head, log, since);
            && 0 < |w.events| <= 1000 && since < w.cursor
            && Upto(log, w.cursor) == Upto(log, since) + |w.events|
            && w.events == Ops(log[Upto(log, since)..Upto(log, w.cursor)])
            && (|w.events| < 1000 ==> w.cursor == Head(log))
  {
    UptoSplits(log, since);
    PullReaches(log, since);
  }

  /** A cursor at or past the head gets an empty window and the head back. */
  lemma PullAtHead(log: seq<LogRow>, since: int)
    requires Ordered(log) && Head(log) <= since
    ensures PullSince(Head(log), log, since) == Window([], Head(log)) && Upto(log, since) == |log|
  {
    UptoSplits(log, since);
    UptoUnique(log, since, |log|);
  }

  // ---------------------------------------------------------------------
  // Chained pulls
  // ---------------------------------------------------------------------

  /** The windows a client gets by pulling from its own cursor until a window
      comes back empty. */
  function Chain(log: seq<LogRow>, since: int): seq<seq<Op>>
    requires Ordered(log)
    decreases |log| - Upto(log, since)
  {
    if |log| == 0 || since >= Head(log) then []
    else
      PullIsExact(Head(log), log, since);
      var w := PullSince(Head(log), log, since);
      [w.events] + Chain(log, w.cursor)
  }

  lemma {:induction false} FlatCons(v: seq<Op>, vs: seq<seq<Op>>)
    ensures Flat([v] + vs) == v + Flat(vs)
  {
    if |vs| == 0 {
      assert [v] + vs == [v] && [v][..0] == [];
    } else {
      assert ([v] + vs)[..|vs|] == [v] + vs[..|vs| - 1];
      FlatCons(v, vs[..|vs| - 1]);
    }
  }

  /** Windows needed for `n` rows. */
  function WindowsFor(n: nat): nat { (n + WINDOW - 1) / WINDOW }

  lemma OpsSplit(log: seq<LogRow>, a: nat, b: nat)
    requires a <= b <= |log|
    ensures Ops(log[a..b]) + Ops(log[b..]) == Ops(log[a..])
  {
  }

  /** Chained pulls return every logged op after the cursor exactly once, in
      seq order. */
  lemma {:induction false} ChainIsExact(log: seq<LogRow>, since: int)
    requires Ordered(log)
    ensures Flat(Chain(log, since)) == Ops(log[Upto(log, since)..])
    decreases |log| - Upto(log, since)
  {
    if |log| == 0 {
    } else if since >= Head(log) {
      PullAtHead(log, since);
    } else {
      PullIsExact(Head(log), log, since);
      var w := PullSince(Head(log), log, since);
      ChainIsExact(log, w.cursor);
      FlatCons(w.events, Chain(log, w.cursor));
      OpsSplit(log, Upto(log, since), Upto(log, w.cursor));
    }
  }

  /** ... in as few non-empty windows as the limit allows. */
  lemma {:induction false} ChainIsShort(log: seq<LogRow>, since: int)
    requires Ordered(log)
    ensures |Chain(log, since)| == (|log| - Upto(log, since) + 999) / 1000
    decreases |log| - Upto(log, since)
  {
    if |log| == 0 {
    } else if since >= Head(log) {
      PullAtHead(log, since);
    } else {
      PullIsExact(Head(log), log, since);
      var w := PullSince(Head(log), log, since);
      ChainIsShort(log, w.cursor);
      if |w.events| < WINDOW { PullAtHead(log, w.cursor); }
    }
  }

  /** Where the chain ends. */
  function ChainEnd(log: seq<LogRow>, since: int): int
    requires Ordered(log)
    decreases |log| - Upto(log, since)
  {
    if |log| == 0 || since >= Head(log) then PullSince(Head(log), log, since).cursor
    else
      PullIsExact(Head(log), log, since);
      ChainEnd(log, PullSince(Head(log), log, since).cursor)
  }

  lemma {:induction false} ChainEndsAtHead(log: seq<LogRow>, since: int)
    requires Ordered(log)
    ensures ChainEnd(log, since) == Head(log)
    decreases |log| - Upto(log, since)
  {
    if |log| == 0 || since >= Head(log) {
    } else {
      PullIsExact(Head(log), log, since);
      ChainEndsAtHead(log, PullSince(Head(log), log, since).cursor);
    }
  }
}
