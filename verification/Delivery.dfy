/**
 Durable delivery: the client's op log, and what survives of it over runs with
 lost frames, lost acks, crashes, failed pushes and resends.

 The network keeps every frame ever sent and may hand over any of them at any
 time, again and again, or never. Dead sockets, crashes and reloads are runs in
 which frames never arrive; the op log is the only client state that counts.
 */
module Delivery {
  import opened Protocol
  import opened Register
  import opened Store
  import opened SyncLog
  import opened Server
  import opened Session
  import opened Convergence

  /** A readable row of `oxylite.pending_ops`. */
  datatype PendingRow = PendingRow(op: Op, batch: Batch)

  /** Any row of it: the op may not parse, the batch id may be missing. */
  datatype Filed = Filed(op: Option<Op>, batch: Option<Batch>) {
    predicate Readable() { op.Some? && batch.Some? }
  }

  function File(row: PendingRow): Filed {
    Filed(Some(row.op), Some(row.batch))
  }

  function Readable(filed: seq<Filed>): seq<PendingRow> {
    if |filed| == 0 then []
    else
      var f := filed[|filed| - 1];
      Readable(filed[..|filed| - 1]) + if f.Readable() then [PendingRow(f.op.value, f.batch.value)] else []
  }

  function Unreadable(filed: seq<Filed>): seq<Filed> {
    if |filed| == 0 then []
    else
      var f := filed[|filed| - 1];
      Unreadable(filed[..|filed| - 1]) + if f.Readable() then [] else [f]
  }

  function FrameOf(row: PendingRow): ClientMsg {
    Push([row.op], row.batch)
  }

  function Frames(rows: seq<PendingRow>): seq<ClientMsg> {
    seq(|rows|, i requires 0 <= i < |rows| => FrameOf(rows[i]))
  }

  function OpsOf(rows: seq<PendingRow>): seq<Op> {
    seq(|rows|, i requires 0 <= i < |rows| => rows[i].op)
  }

  /** `DELETE FROM pending_ops WHERE batch_id = batch`. */
  function Retired(filed: seq<Filed>, batch: Batch): seq<Filed> {
    if |filed| == 0 then []
    else
      var f := filed[|filed| - 1];
      Retired(filed[..|filed| - 1], batch) + if f.batch == Some(batch) then [] else [f]
  }

  lemma {:induction false} RetiredReads(filed: seq<Filed>, batch: Batch)
    ensures Readable(Retired(filed, batch)) == Without(Readable(filed), batch)
  {
    if |filed| == 0 {
    } else {
      var init, f := filed[..|filed| - 1], filed[|filed| - 1];
      RetiredReads(init, batch);
      FiledLast(Retired(init, batch), f);
      WithoutLast(Readable(init), if f.Readable() then [PendingRow(f.op.value, f.batch.value)] else [], batch);
    }
  }

  lemma {:induction false} RetiredKeepsUnreadable(filed: seq<Filed>, batch: Batch)
    requires forall f | f in filed && !f.Readable() :: f.batch != Some(batch)
    ensures Unreadable(Retired(filed, batch)) == Unreadable(filed)
  {
    if |filed| == 0 {
    } else {
      var init, f := filed[..|filed| - 1], filed[|filed| - 1];
      assert filed == init + [f];
      RetiredKeepsUnreadable(init, batch);
      FiledLast(Retired(init, batch), f);
    }
  }

  lemma FiledLast(filed: seq<Filed>, f: Filed)
    ensures Readable(filed + [f]) ==
            Readable(filed) + if f.Readable() then [PendingRow(f.op.value, f.batch.value)] else []
    ensures Unreadable(filed + [f]) == Unreadable(filed) + if f.Readable() then [] else [f]
    ensures filed + [] == filed
  {
    assert (filed + [f])[..|filed|] == filed;
  }

  lemma WithoutLast(rows: seq<PendingRow>, last: seq<PendingRow>, batch: Batch)
    requires |last| <= 1
    ensures Without(rows + last, batch) ==
            Without(rows, batch) + if |last| == 1 && last[0].batch != batch then last else []
  {
    if |last| == 1 {
      assert (rows + last)[..|rows|] == rows;
    } else {
      assert rows + last == rows;
    }
  }

  /** The rows left, of the readable ones. */
  function Without(rows: seq<PendingRow>, batch: Batch): (rest: seq<PendingRow>)
    ensures forall r :: r in rest <==> r in rows && r.batch != batch
  {
    if |rows| == 0 then []
    else
      var last := rows[|rows| - 1];
      assert rows == rows[..|rows| - 1] + [last];
      Without(rows[..|rows| - 1], batch) + if last.batch == batch then [] else [last]
  }

  ghost predicate DistinctBatches(rows: seq<PendingRow>) {
    forall i, j | 0 <= i < j < |rows| :: rows[i].batch != rows[j].batch
  }

  lemma {:induction false} WithoutKeepsDistinct(rows: seq<PendingRow>, batch: Batch)
    requires DistinctBatches(rows)
    ensures DistinctBatches(Without(rows, batch))
  {
    if |rows| == 0 {
    } else {
      var init := rows[..|rows| - 1];
      WithoutKeepsDistinct(init, batch);
      forall r | r in Without(init, batch) ensures r.batch != rows[|rows| - 1].batch {
        var i :| 0 <= i < |init| && init[i] == r;
        assert rows[i] == r;
      }
    }
  }

  lemma {:induction false} WithoutFirst(rows: seq<PendingRow>)
    requires |rows| > 0 && DistinctBatches(rows)
    ensures Without(rows, rows[0].batch) == rows[1..]
  {
    if |rows| > 1 {
      var init := rows[..|rows| - 1];
      WithoutFirst(init);
      assert init[1..] + [rows[|rows| - 1]] == rows[1..];
    } else {
      assert rows[..0] == [];
    }
  }

  /** The client's durable op log. */
  class Outbox {
    var filed: seq<Filed>
    /** The next unused batch id. */
    var nextBatch: Batch
    /** Every row ever persisted here. */
    ghost var written: seq<PendingRow>

    function Pending(): seq<PendingRow>
      reads this
    {
      Readable(filed)
    }

    ghost predicate Valid()
      reads this
    {
      AuditBox(filed, written, nextBatch)
    }

    /** What is on disk from before may be unreadable; batch ids are unique. */
    constructor (leftovers: seq<Filed>, next: Batch)
      requires forall f | f in leftovers :: !f.Readable() && (f.batch.Some? ==> f.batch.value < next)
      ensures Valid() && filed == leftovers && Pending() == [] && written == []
    {
      filed, nextBatch, written := leftovers, next, [];
      new;
      NoneReadable(leftovers);
    }

    lemma Facts()
      requires Valid()
      ensures OneRowPerBatch(written, nextBatch) && DistinctBatches(Pending())
      ensures forall r | r in Pending() :: r in written
    {
    }

    /** `push_local`: persist first, send second; what cannot be persisted is
        not sent. */
    method PushLocal(op: Op, open: bool, stored: bool) returns (sent: seq<ClientMsg>)
      requires Valid()
      modifies this
      ensures Valid() && nextBatch == old(nextBatch) + 1
      ensures !stored ==> sent == [] && filed == old(filed) && written == old(written)
      ensures stored ==>
                var row := PendingRow(op, old(nextBatch));
                && filed == old(filed) + [File(row)] && written == old(written) + [row]
                && Pending() == old(Pending()) + [row] && Unreadable(filed) == old(Unreadable(filed))
                && sent == if open then [FrameOf(row)] else []
    {
      hide AuditBox;
      sent := [];
      var row := PendingRow(op, nextBatch);
      FiledLast(filed, File(row));
      WriteKeepsBox(filed, written, nextBatch, row);
      nextBatch := nextBatch + 1;
      if !stored {
        return;
      }
      filed, written := filed + [File(row)], written + [row];
      if open {
        sent := [FrameOf(row)];
      }
    }

    /** `flush_pending`: on connect, resend every readable row, one frame each;
        the others are skipped, and kept. */
    method FlushPending() returns (sent: seq<ClientMsg>)
      ensures sent == Frames(Pending())
    {
      sent := [];
      for i := 0 to |filed|
        invariant sent == Frames(Readable(filed[..i]))
      {
        assert filed[..i + 1][..i] == filed[..i];
        var f := filed[i];
        if f.Readable() {
          FramesLast(Readable(filed[..i]), PendingRow(f.op.value, f.batch.value));
          sent := sent + [Push([f.op.value], f.batch.value)];
        }
      }
      assert filed[..|filed|] == filed;
    }

    /** The ack arm of `handle_msg`; the retirement itself may fail. */
    method OnAck(batch: Batch, deleted: bool)
      requires Valid()
      modifies this`filed
      ensures Valid()
      ensures filed == if deleted then Retired(old(filed), batch) else old(filed)
      ensures Pending() == if deleted then Without(old(Pending()), batch) else old(Pending())
      ensures (exists r | r in written :: r.batch == batch) ==> Unreadable(filed) == old(Unreadable(filed))
    {
      hide AuditBox;
      if deleted {
        RetiredReads(filed, batch);
        if exists r | r in written :: r.batch == batch {
          OursAreReadable(filed, written, nextBatch, batch);
          RetiredKeepsUnreadable(filed, batch);
        }
        RetireKeepsBox(filed, written, nextBatch, batch);
        filed := Retired(filed, batch);
      }
    }
  }

  lemma SentAhead(written: seq<PendingRow>, pending: seq<PendingRow>, next: Batch, up: seq<ClientMsg>,
                  down: seq<Batch>, others: seq<Op>, logged: seq<Op>, quarantine: seq<Op>)
    requires AuditDelivery(written, pending, next, up, down, others, logged, quarantine)
    ensures WriteAhead(up, written)
  {
  }

  ghost predicate AuditBox(filed: seq<Filed>, written: seq<PendingRow>, next: Batch) {
    && (forall r | r in Readable(filed) :: r in written)
    && OneRowPerBatch(written, next) && DistinctBatches(Readable(filed))
    && (forall f | f in filed && !f.Readable() && f.batch.Some? ::
          f.batch.value < next && forall r | r in written :: r.batch != f.batch.value)
  }

  lemma {:induction false} NoneReadable(filed: seq<Filed>)
    requires forall f | f in filed :: !f.Readable()
    ensures Readable(filed) == []
  {
    if |filed| == 0 {
    } else {
      NoneReadable(filed[..|filed| - 1]);
    }
  }

  lemma FramesLast(rows: seq<PendingRow>, row: PendingRow)
    ensures Frames(rows + [row]) == Frames(rows) + [FrameOf(row)]
  {
  }

  lemma WriteKeepsBox(filed: seq<Filed>, written: seq<PendingRow>, next: Batch, row: PendingRow)
    requires AuditBox(filed, written, next) && row.batch == next
    ensures AuditBox(filed, written, next + 1)
    ensures AuditBox(filed + [File(row)], written + [row], next + 1)
  {
    FiledLast(filed, File(row));
  }

  lemma {:induction false} RetiredOnly(filed: seq<Filed>, batch: Batch)
    ensures forall f | f in Retired(filed, batch) :: f in filed
  {
    if |filed| == 0 {
    } else {
      RetiredOnly(filed[..|filed| - 1], batch);
    }
  }

  lemma RetireKeepsBox(filed: seq<Filed>, written: seq<PendingRow>, next: Batch, batch: Batch)
    requires AuditBox(filed, written, next)
    ensures AuditBox(Retired(filed, batch), written, next)
  {
    RetiredReads(filed, batch);
    RetiredOnly(filed, batch);
    WithoutKeepsDistinct(Readable(filed), batch);
  }

  lemma OursAreReadable(filed: seq<Filed>, written: seq<PendingRow>, next: Batch, batch: Batch)
    requires AuditBox(filed, written, next)
    requires exists r | r in written :: r.batch == batch
    ensures forall f | f in filed && !f.Readable() :: f.batch != Some(batch)
  {
  }

  ghost predicate OneRowPerBatch(rows: seq<PendingRow>, next: Batch) {
    && (forall r | r in rows :: r.batch < next)
    && (forall p, q | p in rows && q in rows && p.batch == q.batch :: p == q)
  }

  // ---------------------------------------------------------------------
  // The invariant of every run
  // ---------------------------------------------------------------------

  /** The op reached the server for good: the log if the schema can apply it,
      else the quarantine. */
  predicate Committed(op: Op, logged: seq<Op>, quarantine: seq<Op>) {
    if Applyable(op) then op in logged else op in quarantine
  }

  ghost predicate AllCommitted(rows: seq<PendingRow>, batch: Batch, logged: seq<Op>, quarantine: seq<Op>) {
    forall r | r in rows && r.batch == batch :: Committed(r.op, logged, quarantine)
  }

  /** Nothing is lost: a row still pends or its op is committed. */
  ghost predicate NothingLost(written: seq<PendingRow>, pending: seq<PendingRow>, logged: seq<Op>,
                              quarantine: seq<Op>) {
    forall r | r in written :: r in pending || Committed(r.op, logged, quarantine)
  }

  /** Nothing is invented: the server only has what was written here or pushed
      by others. */
  ghost predicate NothingInvented(written: seq<PendingRow>, others: seq<Op>, logged: seq<Op>, quarantine: seq<Op>) {
    forall op | op in logged || op in quarantine :: op in others || exists r | r in written :: r.op == op
  }

  /** Write-ahead: every frame sent carries one persisted row. */
  ghost predicate WriteAhead(up: seq<ClientMsg>, written: seq<PendingRow>) {
    forall f | f in up :: exists r | r in written :: f == FrameOf(r)
  }

  /** Every ack ever sent back names a batch written here, and committed. */
  ghost predicate AcksAreTrue(down: seq<Batch>, written: seq<PendingRow>, next: Batch, logged: seq<Op>,
                              quarantine: seq<Op>) {
    forall b | b in down ::
      b < next && (exists r | r in written :: r.batch == b) && AllCommitted(written, b, logged, quarantine)
  }

  /** What every reachable state satisfies. */
  ghost predicate AuditDelivery(written: seq<PendingRow>, pending: seq<PendingRow>, next: Batch, up: seq<ClientMsg>,
                               down: seq<Batch>, others: seq<Op>, logged: seq<Op>, quarantine: seq<Op>)
  {
    && NothingLost(written, pending, logged, quarantine)
    && NothingInvented(written, others, logged, quarantine)
    && WriteAhead(up, written)
    && AcksAreTrue(down, written, next, logged, quarantine)
  }

  lemma WriteKeepsDelivery(written: seq<PendingRow>, pending: seq<PendingRow>, next: Batch, up: seq<ClientMsg>,
                           down: seq<Batch>, others: seq<Op>, logged: seq<Op>, quarantine: seq<Op>,
                           row: PendingRow, sent: seq<ClientMsg>)
    requires AuditDelivery(written, pending, next, up, down, others, logged, quarantine)
    requires row.batch == next && (forall f | f in sent :: f == FrameOf(row))
    ensures AuditDelivery(written + [row], pending + [row], next + 1, up + sent, down, others, logged, quarantine)
  {
    forall b | b in down ensures AllCommitted(written + [row], b, logged, quarantine) {
      assert AllCommitted(written, b, logged, quarantine);
    }
    assert row in written + [row];
    forall f | f in up + sent ensures exists r | r in written + [row] :: f == FrameOf(r) {
      if f in up {
        var r :| r in written && f == FrameOf(r);
        assert r in written + [row];
      } else {
        assert f == FrameOf(row);
      }
    }
    assert NothingInvented(written + [row], others, logged, quarantine) by {
      forall op | (op in logged || op in quarantine) && op !in others
        ensures exists r | r in written + [row] :: r.op == op
      {
        var r :| r in written && r.op == op;
        assert r in written + [row];
      }
    }
  }

  /** What cannot be persisted uses up its batch id. */
  lemma UnwrittenKeepsDelivery(written: seq<PendingRow>, pending: seq<PendingRow>, next: Batch, up: seq<ClientMsg>,
                               down: seq<Batch>, others: seq<Op>, logged: seq<Op>, quarantine: seq<Op>)
    requires AuditDelivery(written, pending, next, up, down, others, logged, quarantine)
    ensures AuditDelivery(written, pending, next + 1, up, down, others, logged, quarantine)
  {
  }

  lemma ResendKeepsDelivery(written: seq<PendingRow>, pending: seq<PendingRow>, next: Batch, up: seq<ClientMsg>,
                            down: seq<Batch>, others: seq<Op>, logged: seq<Op>, quarantine: seq<Op>)
    requires AuditDelivery(written, pending, next, up, down, others, logged, quarantine)
    requires forall r | r in pending :: r in written
    ensures AuditDelivery(written, pending, next, up + Frames(pending), down, others, logged, quarantine)
  {
    forall f | f in up + Frames(pending) ensures exists r | r in written :: f == FrameOf(r) {
      if f !in up {
        var i :| 0 <= i < |pending| && Frames(pending)[i] == f;
        assert pending[i] in written && f == FrameOf(pending[i]);
      }
    }
  }

  /** A push of one's own row commits it, so its ack is true. */
  lemma CommitKeepsDelivery(written: seq<PendingRow>, pending: seq<PendingRow>, next: Batch, up: seq<ClientMsg>,
                            down: seq<Batch>, others: seq<Op>, logged: seq<Op>, quarantine: seq<Op>, row: PendingRow)
    requires AuditDelivery(written, pending, next, up, down, others, logged, quarantine)
    requires row in written && OneRowPerBatch(written, next)
    ensures AuditDelivery(written, pending, next, up, down + [row.batch], others,
                          logged + Accepted([row.op]), quarantine + Rejected([row.op]))
  {
    PushSortsByDecoding([row.op]);
    var l, q := logged + Accepted([row.op]), quarantine + Rejected([row.op]);
    assert row.op in [row.op];
    assert Committed(row.op, l, q);
    forall b | b in down + [row.batch] ensures b < next && AllCommitted(written, b, l, q) {
      if b in down {
        assert AllCommitted(written, b, logged, quarantine);
      }
    }
  }

  lemma OthersKeepDelivery(written: seq<PendingRow>, pending: seq<PendingRow>, next: Batch, up: seq<ClientMsg>,
                           down: seq<Batch>, others: seq<Op>, logged: seq<Op>, quarantine: seq<Op>, ops: seq<Op>)
    requires AuditDelivery(written, pending, next, up, down, others, logged, quarantine)
    ensures AuditDelivery(written, pending, next, up, down, others + ops,
                          logged + Accepted(ops), quarantine + Rejected(ops))
  {
    PushSortsByDecoding(ops);
    forall b | b in down ensures AllCommitted(written, b, logged + Accepted(ops), quarantine + Rejected(ops)) {
      assert AllCommitted(written, b, logged, quarantine);
    }
  }

  /** Retiring an acked batch loses nothing. */
  lemma RetireKeepsDelivery(written: seq<PendingRow>, pending: seq<PendingRow>, next: Batch, up: seq<ClientMsg>,
                            down: seq<Batch>, others: seq<Op>, logged: seq<Op>, quarantine: seq<Op>, batch: Batch)
    requires AuditDelivery(written, pending, next, up, down, others, logged, quarantine)
    requires batch in down
    ensures AuditDelivery(written, Without(pending, batch), next, up, down, others, logged, quarantine)
  {
    assert AllCommitted(written, batch, logged, quarantine);
  }

  lemma AckIsOurs(written: seq<PendingRow>, pending: seq<PendingRow>, next: Batch, up: seq<ClientMsg>,
                  down: seq<Batch>, others: seq<Op>, logged: seq<Op>, quarantine: seq<Op>, batch: Batch)
    requires AuditDelivery(written, pending, next, up, down, others, logged, quarantine) && batch in down
    ensures exists r | r in written :: r.batch == batch
  {
  }

  lemma {:induction false} AllUnreadable(filed: seq<Filed>)
    ensures Readable(filed) == [] ==> Unreadable(filed) == filed
  {
    if |filed| == 0 {
    } else {
      AllUnreadable(filed[..|filed| - 1]);
    }
  }

  lemma FirstThenRest(base: Db, rows: seq<PendingRow>)
    requires |rows| > 0
    ensures Replay(base, OpsOf(rows)) == Replay(Applied(base, rows[0].op), OpsOf(rows[1..]))
  {
    var op := rows[0].op;
    assert OpsOf(rows) == [op] + OpsOf(rows[1..]);
    ReplayConcat(base, [op], OpsOf(rows[1..]));
    assert [op][..0] == [] && Replay(base, []) == base;
  }

  lemma RowOf(f: ClientMsg, up: seq<ClientMsg>, written: seq<PendingRow>) returns (row: PendingRow)
    requires WriteAhead(up, written) && f in up
    ensures row in written && f == FrameOf(row)
  {
    row :| row in written && f == FrameOf(row);
  }

  // ---------------------------------------------------------------------
  // Runs
  // ---------------------------------------------------------------------

  /** One event of a run. An arriving frame or ack is any one ever sent. */
  datatype Event =
    | Write(op: Op, open: bool, stored: bool)
    | Connect
    | Arrive(frame: nat, failAt: Option<nat>)
    | AckArrives(ack: nat, deleted: bool)
    | Others(ops: seq<Op>, failAt: Option<nat>)
    | PruneLog(cutoff: int)
    | Wait(seconds: nat)

  /** The tables of an event's ops are the server's. */
  predicate Typed(e: Event, tables: seq<Table>) {
    match e
    case Write(op, _, _) => op.table in tables
    case Others(ops, _) => forall op | op in ops :: op.table in tables
    case _ => true
  }

  /** What an event adds to the op log, as persisted. */
  function WrittenBy(e: Event): seq<Op> {
    match e
    case Write(op, _, stored) => if stored then [op] else []
    case _ => []
  }

  /** A push of `n` ops commits unless a statement of it or the commit fails. */
  predicate Commits(n: nat, failAt: Option<nat>) {
    failAt.Some? ==> failAt.value > n
  }

  /** The server did nothing but commit `ops`. */
  predicate CommitsOnly(db: Db, hist: seq<LogRow>, quarantine: seq<Op>, db': Db, hist': seq<LogRow>,
                        quarantine': seq<Op>, ops: seq<Op>)
  {
    && db' == Replay(db, ops) && Ops(hist') == Ops(hist) + Accepted(ops)
    && quarantine' == quarantine + Rejected(ops)
  }

  function WrittenDuring(events: seq<Event>): seq<Op> {
    if |events| == 0 then []
    else WrittenDuring(events[..|events| - 1]) + WrittenBy(events[|events| - 1])
  }

  /** What an event leaves of the op log. */
  function PendingAfter(e: Event, pending: seq<PendingRow>, next: Batch, down: seq<Batch>): seq<PendingRow> {
    match e
    case Write(op, _, stored) => if stored then pending + [PendingRow(op, next)] else pending
    case AckArrives(i, deleted) => if i < |down| && deleted then Without(pending, down[i]) else pending
    case _ => pending
  }

  /** What it sends. */
  function SentBy(e: Event, pending: seq<PendingRow>, next: Batch): seq<ClientMsg> {
    match e
    case Write(op, open, stored) => if stored && open then [FrameOf(PendingRow(op, next))] else []
    case Connect => Frames(pending)
    case _ => []
  }

  ghost predicate AllTyped(rows: seq<PendingRow>, tables: seq<Table>) {
    forall r | r in rows :: r.op.table in tables
  }

  class World {
    const box: Outbox
    const server: Backend
    const session: Connection
    /** Every frame and every ack ever sent. */
    var up: seq<ClientMsg>
    var down: seq<Batch>
    ghost var others: seq<Op>

    ghost predicate Valid()
      reads this, box, server
    {
      && box.Valid() && server.Valid() && AllTyped(box.written, server.tables)
      && AuditDelivery(box.written, box.Pending(), box.nextBatch, up, down, others, Ops(server.hist), server.quarantine)
    }

    constructor (box: Outbox, server: Backend, session: Connection)
      requires box.Valid() && box.written == [] && server.Valid() && server.hist == [] && server.quarantine == []
      ensures Valid() && this.box == box && this.server == server && this.session == session
    {
      this.box, this.server, this.session := box, server, session;
      up, down, others := [], [], [];
    }

    method Perform(e: Event)
      requires Valid() && Typed(e, server.tables)
      modifies this, box, server, session
      ensures Valid()
      ensures Ops(old(server.hist)) <= Ops(server.hist)
      ensures OpsOf(box.written) == OpsOf(old(box.written)) + WrittenBy(e)
      ensures box.Pending() == PendingAfter(e, old(box.Pending()), old(box.nextBatch), old(down))
      ensures Unreadable(box.filed) == old(Unreadable(box.filed))
      ensures up == old(up) + SentBy(e, old(box.Pending()), old(box.nextBatch))
      ensures e.Arrive? && e.frame < |old(up)| ==>
                && old(up)[e.frame].Push? && |old(up)[e.frame].ops| == 1
                && down == old(down) + (if Commits(1, e.failAt) then [old(up)[e.frame].batch] else [])
                && CommitsOnly(old(server.db), old(server.hist), old(server.quarantine), server.db, server.hist,
                               server.quarantine, if Commits(1, e.failAt) then old(up)[e.frame].ops else [])
      ensures e.Others? ==>
                var came := if Commits(|e.ops|, e.failAt) then e.ops else [];
                && others == old(others) + came
                && CommitsOnly(old(server.db), old(server.hist), old(server.quarantine), server.db, server.hist,
                               server.quarantine, came)
      ensures e.PruneLog? ==> server.log == Surviving(old(server.log), e.cutoff)
      ensures e.Wait? ==> server.now == old(server.now) + e.seconds
      ensures !e.Others? && !(e.Arrive? && e.frame < |old(up)|) ==>
                server.db == old(server.db) && server.hist == old(server.hist)
                && server.quarantine == old(server.quarantine)
      ensures !(e.Arrive? && e.frame < |old(up)|) ==> down == old(down)
      ensures !e.Others? ==> others == old(others)
    {
      hide AuditDelivery, AuditBox, LogOk, AuditSnapshots;
      match e {
        case Write(op, open, stored) =>
          WriteAndSend(op, open, stored);
        case Connect =>
          Reconnect();
        case Arrive(i, failAt) =>
          if i < |up| {
            SentAhead(box.written, box.Pending(), box.nextBatch, up, down, others, Ops(server.hist), server.quarantine);
            ghost var row := RowOf(up[i], up, box.written);
            Deliver(up[i], row, failAt);
          }
        case AckArrives(i, deleted) =>
          if i < |down| { Acked(down[i], deleted); }
        case Others(ops, failAt) =>
          OthersPush(ops, failAt);
        case PruneLog(cutoff) =>
          var removed := server.Prune(cutoff);
        case Wait(seconds) =>
          server.Elapse(seconds);
      }
    }

    method WriteAndSend(op: Op, open: bool, stored: bool)
      requires Valid() && op.table in server.tables
      modifies this, box
      ensures Valid()
      ensures OpsOf(box.written) == OpsOf(old(box.written)) + if stored then [op] else []
      ensures box.Pending() == old(box.Pending()) + if stored then [PendingRow(op, old(box.nextBatch))] else []
      ensures Unreadable(box.filed) == old(Unreadable(box.filed))
      ensures up == old(up) + if stored && open then [FrameOf(PendingRow(op, old(box.nextBatch)))] else []
      ensures down == old(down) && others == old(others)
    {
      hide AuditDelivery, AuditBox, LogOk, AuditSnapshots;
      ghost var row := PendingRow(op, box.nextBatch);
      WriteKeepsDelivery(box.written, box.Pending(), box.nextBatch, up, down, others, Ops(server.hist),
                         server.quarantine, row, if open then [FrameOf(row)] else []);
      UnwrittenKeepsDelivery(box.written, box.Pending(), box.nextBatch, up, down, others, Ops(server.hist),
                          server.quarantine);
      assert up + [] == up;
      var sent := box.PushLocal(op, open, stored);
      up := up + sent;
    }

    method Acked(batch: Batch, deleted: bool)
      requires Valid() && batch in down
      modifies box`filed
      ensures Valid() && box.Pending() == if deleted then Without(old(box.Pending()), batch) else old(box.Pending())
      ensures Unreadable(box.filed) == old(Unreadable(box.filed))
    {
      hide AuditDelivery, AuditBox, LogOk, AuditSnapshots;
      AckIsOurs(box.written, box.Pending(), box.nextBatch, up, down, others, Ops(server.hist), server.quarantine,
                batch);
      RetireKeepsDelivery(box.written, box.Pending(), box.nextBatch, up, down, others, Ops(server.hist),
                          server.quarantine, batch);
      box.OnAck(batch, deleted);
    }

    method Reconnect()
      requires Valid()
      modifies this`up
      ensures Valid() && up == old(up) + Frames(box.Pending())
    {
      hide AuditDelivery, AuditBox, LogOk, AuditSnapshots;
      box.Facts();
      ResendKeepsDelivery(box.written, box.Pending(), box.nextBatch, up, down, others, Ops(server.hist),
                          server.quarantine);
      var sent := box.FlushPending();
      up := up + sent;
    }

    method Deliver(frame: ClientMsg, ghost row: PendingRow, failAt: Option<nat>)
      requires Valid() && row in box.written && frame == FrameOf(row)
      modifies this`down, server, session
      ensures Valid()
      ensures Ops(old(server.hist)) <= Ops(server.hist)
      ensures down == old(down) + if Commits(1, failAt) then [row.batch] else []
      ensures Commits(1, failAt) ==> server.db == Applied(old(server.db), row.op)
      ensures CommitsOnly(old(server.db), old(server.hist), old(server.quarantine), server.db, server.hist,
                          server.quarantine, if Commits(1, failAt) then [row.op] else [])
    {
      hide AuditDelivery, AuditBox, LogOk, AuditSnapshots;
      box.Facts();
      CommitKeepsDelivery(box.written, box.Pending(), box.nextBatch, up, down, others, Ops(server.hist),
                          server.quarantine, row);
      var reply := session.OnText(server, frame, failAt);
      assert [row.op][..0] == [];
      if reply.Some? {
        down := down + [reply.value.batch];
      }
    }

    method OthersPush(ops: seq<Op>, failAt: Option<nat>)
      requires Valid() && forall op | op in ops :: op.table in server.tables
      modifies this`others, server
      ensures Valid()
      ensures Ops(old(server.hist)) <= Ops(server.hist)
      ensures var came := if Commits(|ops|, failAt) then ops else [];
              && others == old(others) + came
              && CommitsOnly(old(server.db), old(server.hist), old(server.quarantine), server.db, server.hist,
                             server.quarantine, came)
    {
      hide AuditDelivery, AuditBox, LogOk, AuditSnapshots;
      AppendedOps(server.hist, Accepted(ops), server.nextSeq, server.now);
      OthersKeepDelivery(box.written, box.Pending(), box.nextBatch, up, down, others, Ops(server.hist),
                         server.quarantine, ops);
      var cursor := server.Push(ops, failAt);
      if cursor.Some? {
        others := others + ops;
      }
    }

    /** Any run. Everything persisted during it is still in the op log or has
        reached the server for good, whatever was lost, failed or repeated; the
        server has nothing else; and its live state is its log, replayed. */
    method Run(events: seq<Event>)
      requires Valid() && forall e | e in events :: Typed(e, server.tables)
      modifies this, box, server, session
      ensures Valid()
      ensures OpsOf(box.written) == OpsOf(old(box.written)) + WrittenDuring(events)
      ensures NothingLost(box.written, box.Pending(), Ops(server.hist), server.quarantine)
      ensures NothingInvented(box.written, others, Ops(server.hist), server.quarantine)
      ensures server.db == Replay(EMPTY_DB, Ops(server.hist)) && Ops(old(server.hist)) <= Ops(server.hist)
      ensures Unreadable(box.filed) == old(Unreadable(box.filed))
    {
      hide AuditDelivery, AuditBox, LogOk, AuditSnapshots, NothingLost, NothingInvented, Ops, Unreadable, Readable;
      for i := 0 to |events|
        invariant Valid() && Ops(old(server.hist)) <= Ops(server.hist)
        invariant Unreadable(box.filed) == old(Unreadable(box.filed))
        invariant OpsOf(box.written) == OpsOf(old(box.written)) + WrittenDuring(events[..i])
      {
        assert events[..i + 1][..i] == events[..i];
        Perform(events[i]);
      }
      assert events[..|events|] == events;
      RunFacts();
    }

    lemma RunFacts()
      requires Valid()
      ensures NothingLost(box.written, box.Pending(), Ops(server.hist), server.quarantine)
      ensures NothingInvented(box.written, others, Ops(server.hist), server.quarantine)
      ensures server.db == Replay(EMPTY_DB, Ops(server.hist))
    {
    }

    /** One connection that lasts: the whole op log is resent, committed in
        order and retired, all but its unreadable rows. */
    method Drain()
      requires Valid()
      modifies this, box, server, session
      ensures Valid() && box.filed == Unreadable(old(box.filed))
      ensures server.db == Replay(old(server.db), OpsOf(old(box.Pending())))
    {
      AllUnreadable(box.filed);
      Reconnect();
      ServeAll();
      AllUnreadable(box.filed);
    }

    method ServeAll()
      requires Valid()
      modifies this, box, server, session
      ensures Valid() && box.Pending() == [] && Unreadable(box.filed) == old(Unreadable(box.filed))
      ensures server.db == Replay(old(server.db), OpsOf(old(box.Pending())))
      decreases |box.Pending()|
    {
      if |box.Pending()| > 0 {
        FirstThenRest(server.db, box.Pending());
        DrainFirst();
        ServeAll();
      }
    }

    method DrainFirst()
      requires Valid() && |box.Pending()| > 0
      modifies this, box, server, session
      ensures Valid() && box.Pending() == old(box.Pending())[1..] && Unreadable(box.filed) == old(Unreadable(box.filed))
      ensures server.db == Applied(old(server.db), old(box.Pending())[0].op)
    {
      hide AuditDelivery, AuditBox, LogOk, AuditSnapshots;
      box.Facts();
      var row := box.Pending()[0];
      Deliver(Push([row.op], row.batch), row, None);
      WithoutFirst(box.Pending());
      Acked(down[|down| - 1], true);
    }
  }

  // ---------------------------------------------------------------------
  // At-least-once delivery, exactly-once effect
  // ---------------------------------------------------------------------

  /** The first delivery of each op. */
  function Firsts(ops: seq<Op>): (r: seq<Op>)
    ensures forall op :: op in r <==> op in ops
  {
    if |ops| == 0 then []
    else
      var init, op := ops[..|ops| - 1], ops[|ops| - 1];
      assert ops == init + [op];
      Firsts(init) + if op in init then [] else [op]
  }

  /** No redelivered delete finds an older live row. */
  ghost predicate ResentDeletesMiss(ops: seq<Op>) {
    |ops| == 0 ||
    var init, op := ops[..|ops| - 1], ops[|ops| - 1];
    && ResentDeletesMiss(init)
    && (op in init && op.data.Null? ==>
          !FindsRow(CellOf(Replay(EMPTY_DB, init), Key(op.table, op.id)), Del(op.updatedAt)))
  }

  /** Every op has the effect of one delivery. */
  predicate Once(ops: seq<Op>) {
    Replay(EMPTY_DB, ops) == Replay(EMPTY_DB, Firsts(ops))
  }

  /** ... at every point of the log. */
  predicate OnceThroughout(ops: seq<Op>) {
    |ops| == 0 || (OnceThroughout(ops[..|ops| - 1]) && Once(ops))
  }

  /** At every point of the log the live state is as if each op had been
      delivered once, exactly when no redelivered delete finds an older live
      row. */
  lemma {:induction false} ExactlyOnceEffect(ops: seq<Op>)
    ensures OnceThroughout(ops) <==> ResentDeletesMiss(ops)
  {
    if |ops| == 0 {
    } else {
      var init, op := ops[..|ops| - 1], ops[|ops| - 1];
      ExactlyOnceEffect(init);
      if op in init {
        ResendExactly(init, op);
        assert Firsts(ops) == Firsts(init);
      } else {
        assert Firsts(ops)[..|Firsts(init)|] == Firsts(init);
      }
    }
  }

  /** In particular without blind deletes. */
  lemma {:induction false} NoBlindDeletesMiss(ops: seq<Op>)
    requires NoBlindOps(EMPTY_DB, ops)
    ensures ResentDeletesMiss(ops)
  {
    if |ops| == 0 {
    } else {
      var init, op := ops[..|ops| - 1], ops[|ops| - 1];
      NoBlindDeletesMiss(init);
      if op in init {
        ResendChangesNothing(init, op);
        ResendExactly(init, op);
      }
    }
  }
}
