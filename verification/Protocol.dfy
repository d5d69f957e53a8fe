/**
 The wire protocol's values: ops, their kind, the tombstone guard, and the
 messages a connection exchanges.

 Timestamps are instants on the protocol's millisecond axis, so they are plain
 integers here; Timestamps.dfy relates them to their canonical text. Tables are
 named by their wire name, row ids are numbers standing for UUIDs.
 */
module Protocol {

  datatype Option<+T> = None | Some(value: T)

  type Ts = int
  type Table = string
  type Id = nat

  datatype Key = Key(table: Table, id: Id)

  /** A synced row: its primary key, its last-write-wins column and the rest. */
  datatype Row = Row(id: Id, lww: Ts, body: string)

  /** An op's payload: null marks a delete, a document decodes into a row, and
      anything else is a payload the current schema cannot decode. */
  datatype Data = Null | Doc(row: Row) | Malformed(text: string)

  datatype Op = Op(table: Table, id: Id, data: Data, updatedAt: Ts)

  datatype OpKind = Upsert | Delete

  function Kind(op: Op): OpKind {
    if op.data.Null? then Delete else Upsert
  }

  /** May a write stamped `updatedAt` proceed past the tombstone, if any? */
  predicate TombstoneAllows(updatedAt: Ts, deletedAt: Option<Ts>) {
    match deletedAt
    case None => true
    case Some(at) => updatedAt > at
  }

  /** What an op does to one key, once decoded. */
  datatype Write = Put(row: Row) | Del(at: Ts) {
    function Time(): Ts {
      match this
      case Put(row) => row.lww
      case Del(at) => at
    }
  }

  /** The key and write an op stands for. An upsert is located and ordered by
      its payload, never by the envelope; a delete only has the envelope. */
  function Decoded(op: Op): Option<(Key, Write)> {
    match op.data
    case Null => Some((Key(op.table, op.id), Del(op.updatedAt)))
    case Doc(row) => Some((Key(op.table, row.id), Put(row)))
    case Malformed(_) => None
  }

  predicate Applyable(op: Op) {
    Decoded(op).Some?
  }

  datatype SchemaVersion = SchemaVersion(major: nat, minor: nat, patch: nat) {
    predicate WireCompatible(other: SchemaVersion) {
      major == other.major && minor == other.minor
    }
  }

  type Batch = nat

  datatype ClientMsg =
    | Hello(version: SchemaVersion)
    | Push(ops: seq<Op>, batch: Batch)
    | Pull(since: int)

  datatype Tombstone = Tombstone(table: Table, id: Id, deletedAt: Ts)

  datatype TableData = TableData(table: Table, rows: seq<Row>)

  datatype ServerMsg =
    | Ready(version: SchemaVersion)
    | Incompatible(server: SchemaVersion, client: SchemaVersion)
    | Ack(cursor: int, batch: Batch)
    | Events(events: seq<Op>, cursor: int)
    | Snapshot(seqno: int, tables: seq<TableData>, tombstones: seq<Tombstone>)
}
