/**
 Placeholder numbering of the multi-row statements: which bind parameter each
 slot of a VALUES list names, and what the statement sees when the caller binds
 row-major.
 */
module Placeholders {
  type Column = string

  datatype Cast = Bare | Uuid | Timestamptz | Text | Declared(sqlType: string)

  /** `$number::cast`. */
  datatype Slot = Slot(number: nat, cast: Cast)

  /** The mapping of a row type: its columns in bind order. */
  datatype Mapping = Mapping(columns: seq<Column>, pk: Column, lww: Column, types: seq<(Column, string)>)

  /** The slot number of row `r`, column `c`, both from zero. */
  function Number(width: nat, r: nat, c: nat): nat { r * width + c + 1 }

  function CastOf(m: Mapping, column: Column): Cast {
    if column == m.pk then Uuid
    else if column == m.lww then Timestamptz
    else DeclaredCast(m.types, column)
  }

  /** The first declared type of the column, else text. */
  function DeclaredCast(types: seq<(Column, string)>, column: Column): Cast {
    if |types| == 0 then Text
    else if types[0].0 == column then Declared(types[0].1)
    else DeclaredCast(types[1..], column)
  }

  /** The key is a uuid, the last-write-wins column a timestamptz; of the others
      the first declared type counts, and those without one are text. */
  ghost predicate CastFits(m: Mapping, column: Column, cast: Cast) {
    && (column == m.pk ==> cast == Uuid)
    && (column == m.lww != m.pk ==> cast == Timestamptz)
    && (column != m.pk && column != m.lww ==>
          && (forall i | 0 <= i < |m.types| && m.types[i].0 == column ::
                (forall j | 0 <= j < i :: m.types[j].0 != column) ==> cast == Declared(m.types[i].1))
          && ((forall i | 0 <= i < |m.types| :: m.types[i].0 != column) ==> cast == Text))
  }

  lemma {:induction false} FirstDeclared(types: seq<(Column, string)>, column: Column)
    ensures forall i | 0 <= i < |types| && types[i].0 == column ::
              (forall j | 0 <= j < i :: types[j].0 != column) ==> DeclaredCast(types, column) == Declared(types[i].1)
    ensures (forall i | 0 <= i < |types| :: types[i].0 != column) ==> DeclaredCast(types, column) == Text
  {
    if |types| == 0 {
    } else {
      FirstDeclared(types[1..], column);
      assert forall i | 0 < i < |types| :: types[i] == types[1..][i - 1];
      forall i | 0 <= i < |types| && types[i].0 == column && forall j | 0 <= j < i :: types[j].0 != column
        ensures DeclaredCast(types, column) == Declared(types[i].1)
      {
        if i > 0 {
          assert types[0].0 != column;
          assert forall j | 0 <= j < i - 1 :: types[1..][j] == types[j + 1];
          assert types[1..][i - 1].0 == column;
        }
      }
    }
  }

  lemma CastsFit(m: Mapping, column: Column)
    ensures CastFits(m, column, CastOf(m, column))
  {
    FirstDeclared(m.types, column);
  }

  /** Row `r`, column `c` is parameter `r * columns + c + 1`, cast to the column. */
  ghost predicate RowFits(m: Mapping, r: nat, slots: seq<Slot>) {
    && |slots| == |m.columns|
    && forall c | 0 <= c < |m.columns| ::
         slots[c].number == r * |m.columns| + c + 1 && CastFits(m, m.columns[c], slots[c].cast)
  }

  function RowSlots(m: Mapping, r: nat): seq<Slot> {
    var width := |m.columns|;
    seq(width, c requires 0 <= c < width => Slot(Number(width, r, c), CastOf(m, m.columns[c])))
  }

  lemma RowSlotsFit(m: Mapping, r: nat)
    ensures RowFits(m, r, RowSlots(m, r))
  {
    hide CastFits;
    forall c | 0 <= c < |m.columns| ensures CastFits(m, m.columns[c], CastOf(m, m.columns[c])) {
      CastsFit(m, m.columns[c]);
    }
  }

  /** The VALUES list of `guarded_upsert_sql(nRows)`. */
  method GuardedUpsertValues(m: Mapping, nRows: nat) returns (values: seq<seq<Slot>>)
    ensures |values| == nRows && forall r | 0 <= r < nRows :: RowFits(m, r, values[r])
  {
    hide RowFits, RowSlots;
    values := [];
    for r := 0 to nRows
      invariant |values| == r && forall q | 0 <= q < r :: RowFits(m, q, values[q])
    {
      RowSlotsFit(m, r);
      values := values + [RowSlots(m, r)];
    }
  }

  /** The VALUES list of `upsert_sql(nRows)`: the same numbers, no casts. */
  method UpsertValues(m: Mapping, nRows: nat) returns (values: seq<seq<Slot>>)
    ensures |values| == nRows
    ensures forall r | 0 <= r < nRows ::
              && |values[r]| == |m.columns|
              && forall c | 0 <= c < |m.columns| :: values[r][c] == Slot(r * |m.columns| + c + 1, Bare)
  {
    values := [];
    var width := |m.columns|;
    for r := 0 to nRows
      invariant |values| == r
      invariant forall q | 0 <= q < r ::
                  && |values[q]| == width
                  && forall c | 0 <= c < width :: values[q][c] == Slot(Number(width, q, c), Bare)
    {
      values := values + [seq(width, c requires 0 <= c < width => Slot(Number(width, r, c), Bare))];
    }
  }

  /** The VALUES list of the pair statements, tombstone clear and delete. */
  function PairValues(nRows: nat): seq<(nat, nat)> {
    seq(nRows, r requires 0 <= r < nRows => (r * 2 + 1, r * 2 + 2))
  }

  // ---------------------------------------------------------------------
  // Numbering is a bijection
  // ---------------------------------------------------------------------

  /** Some slot bears the number. */
  ghost predicate IsNumbered(width: nat, nRows: nat, k: nat) {
    exists r, c | 0 <= r < nRows && 0 <= c < width :: Number(width, r, c) == k
  }

  /** Slots and numbers `1..nRows * width` match one to one. */
  lemma NumberingIsABijection(width: nat, nRows: nat)
    ensures forall r, c | 0 <= r < nRows && 0 <= c < width :: 1 <= Number(width, r, c) <= nRows * width
    ensures forall r, c, s, d | 0 <= r < nRows && 0 <= c < width && 0 <= s < nRows && 0 <= d < width ::
              Number(width, r, c) == Number(width, s, d) ==> r == s && c == d
    ensures forall k | 1 <= k <= nRows * width :: IsNumbered(width, nRows, k)
  {
    forall r, c | 0 <= r < nRows && 0 <= c < width ensures 1 <= Number(width, r, c) <= nRows * width {
      InRange(width, nRows, r, c);
    }
    forall r, c, s, d | 0 <= r < nRows && 0 <= c < width && 0 <= s < nRows && 0 <= d < width
        && Number(width, r, c) == Number(width, s, d)
      ensures r == s && c == d
    {
      if r < s { InRange(width, s, r, c); } else if s < r { InRange(width, r, s, d); }
    }
    forall k | 1 <= k <= nRows * width ensures IsNumbered(width, nRows, k) {
      var r, c := SlotOf(width, nRows, k);
    }
  }

  lemma InRange(width: nat, nRows: nat, r: nat, c: nat)
    requires r < nRows && c < width
    ensures 1 <= Number(width, r, c) <= nRows * width
  {
    assert (r + 1) * width <= nRows * width;
  }

  lemma SlotOf(width: nat, nRows: nat, k: nat) returns (r: nat, c: nat)
    requires 1 <= k <= nRows * width
    ensures r < nRows && c < width && Number(width, r, c) == k
  {
    assert width > 0;
    r, c := (k - 1) / width, (k - 1) % width;
    assert r * width + c == k - 1;
    assert r >= nRows ==> r * width >= nRows * width;
  }

  // ---------------------------------------------------------------------
  // What a statement sees
  // ---------------------------------------------------------------------

  /** `chunk.iter().flat_map(|r| r.params())`. */
  function RowMajor(rows: seq<seq<string>>): seq<string> {
    if |rows| == 0 then [] else RowMajor(rows[..|rows| - 1]) + rows[|rows| - 1]
  }

  predicate AllOfWidth(rows: seq<seq<string>>, width: nat) {
    forall r | 0 <= r < |rows| :: |rows[r]| == width
  }

  lemma {:induction false} RowMajorLength(rows: seq<seq<string>>, width: nat)
    requires AllOfWidth(rows, width)
    ensures |RowMajor(rows)| == |rows| * width
  {
    if |rows| == 0 {
    } else {
      RowMajorLength(rows[..|rows| - 1], width);
      assert |rows| * width == (|rows| - 1) * width + width;
    }
  }

  /** The parameter a slot names is its row's value for its column. */
  lemma {:induction false} SlotFindsItsValue(rows: seq<seq<string>>, width: nat, r: nat, c: nat)
    requires AllOfWidth(rows, width) && r < |rows| && c < width
    ensures Number(width, r, c) - 1 < |RowMajor(rows)| && RowMajor(rows)[Number(width, r, c) - 1] == rows[r][c]
  {
    var init := rows[..|rows| - 1];
    RowMajorLength(init, width);
    if r < |init| {
      SlotFindsItsValue(init, width, r, c);
    }
  }

  /** A slot's value, if enough was bound. */
  function Bound(params: seq<string>, slot: Slot): string {
    if 1 <= slot.number <= |params| then params[slot.number - 1] else ""
  }

  function BoundRows(params: seq<string>, values: seq<seq<Slot>>): seq<seq<string>> {
    seq(|values|, r requires 0 <= r < |values| =>
      seq(|values[r]|, c requires 0 <= c < |values[r]| => Bound(params, values[r][c])))
  }

  /** A statement over `n` rows, bound row-major, works on exactly those rows:
      as many parameters as slots, each in its row and column. */
  lemma StatementSeesItsRows(rows: seq<seq<string>>, width: nat, values: seq<seq<Slot>>)
    requires AllOfWidth(rows, width) && |values| == |rows|
    requires forall r | 0 <= r < |rows| ::
               |values[r]| == width && forall c | 0 <= c < width :: values[r][c].number == Number(width, r, c)
    ensures |RowMajor(rows)| == |rows| * width
    ensures BoundRows(RowMajor(rows), values) == rows
  {
    RowMajorLength(rows, width);
    forall r | 0 <= r < |rows| ensures BoundRows(RowMajor(rows), values)[r] == rows[r] {
      forall c | 0 <= c < width ensures Bound(RowMajor(rows), values[r][c]) == rows[r][c] {
        SlotFindsItsValue(rows, width, r, c);
        InRange(width, |rows|, r, c);
      }
    }
  }

  /** `flat_map(|(id, at)| [id, at])`. */
  function PairMajor(pairs: seq<(string, string)>): seq<string> {
    if |pairs| == 0 then []
    else PairMajor(pairs[..|pairs| - 1]) + [pairs[|pairs| - 1].0, pairs[|pairs| - 1].1]
  }

  /** The pair statements see each row's own pair, however often they list the
      values: the delete lists them twice. */
  lemma {:induction false} PairStatementSeesItsPairs(pairs: seq<(string, string)>, r: nat)
    requires r < |pairs|
    ensures |PairMajor(pairs)| == 2 * |pairs|
    ensures var slot := PairValues(|pairs|)[r];
            && slot.1 <= |PairMajor(pairs)|
            && (PairMajor(pairs)[slot.0 - 1], PairMajor(pairs)[slot.1 - 1]) == pairs[r]
  {
    var init := pairs[..|pairs| - 1];
    if |init| == 0 {
    } else {
      PairStatementSeesItsPairs(init, if r < |init| then r else 0);
    }
  }

  // ---------------------------------------------------------------------
  // Chunks
  // ---------------------------------------------------------------------

  /** Kept well under the host-parameter limit. */
  const MAX_PARAMS: nat := 4000

  /** `(4000 / n_cols).max(1)` rows a statement. */
  function ChunkRows(width: nat): (n: nat)
    requires width > 0
    ensures n > 0
  {
    if MAX_PARAMS / width > 1 then MAX_PARAMS / width else 1
  }

  /** A chunk stays within the budget exactly when one row does, and then no
      larger chunk would. */
  lemma ChunkFitsExactly(width: nat)
    requires width > 0
    ensures ChunkRows(width) * width <= 4000 <==> width <= 4000
    ensures (ChunkRows(width) + 1) * width > 4000
  {
    var q := MAX_PARAMS / width;
    assert q * width <= MAX_PARAMS < (q + 1) * width;
    if q > 1 {
      assert width <= q * width;
    } else if q == 0 {
      assert (1 + 1) * width > MAX_PARAMS;
    }
  }
}
