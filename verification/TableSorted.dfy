/**
 * Verified sortedness (`verify_sortedness` of src/tables/mod.rs): which tables really are ordered
 * by their key column, whatever the stream declares.
 */
module TableSorted {
  import opened Wrappers
  import opened Bytes
  import opened Tokens
  import opened TableSchema
  import opened TableLayouts

  // A column as the list of its cells.

  function Cell(t: Tables, table: TableId, rid: nat, column: nat): u32 {
    if RawColumn(t, table, rid, column).Ok? then RawColumn(t, table, rid, column).value else 0
  }

  /** The cells of a column, in row order. */
  function Column(t: Tables, table: TableId, column: nat): (cells: seq<u32>)
    ensures |cells| == RowCount(t, table)
    ensures forall rid | 1 <= rid <= |cells| :: cells[rid - 1] == Cell(t, table, rid, column)
  {
    seq(RowCount(t, table), i requires i >= 0 => Cell(t, table, i + 1, column))
  }

  /** Column reads succeed exactly for the rows and columns the tables have. */
  ghost predicate Readable(schema: Schema, t: Tables) {
    && (forall table: TableId :: |t.layouts[table].offsets| == |t.layouts[table].widths|)
    && forall table: TableId, rid: nat, column: nat ::
         RawColumn(t, table, rid, column).Ok? <==> 1 <= rid <= RowCount(t, table) && column < |schema[table]|
  }

  /** A cell that reads is the one in its column; on readable tables it does read. */
  lemma ReadCell(schema: Schema, t: Tables, table: TableId, rid: nat, column: nat)
    requires 1 <= rid <= RowCount(t, table)
    ensures RawColumn(t, table, rid, column).Ok? ==>
              RawColumn(t, table, rid, column).value == Column(t, table, column)[rid - 1]
    ensures Readable(schema, t) && column < |schema[table]| ==> RawColumn(t, table, rid, column).Ok?
  {
    hide RawColumn;
    assert Column(t, table, column)[rid - 1] == Cell(t, table, rid, column);
  }

  predicate NonDecreasing(cells: seq<u32>) {
    forall i, j | 0 <= i < j < |cells| :: cells[i] <= cells[j]
  }

  // What the verification finds.

  predicate KeyOrdered(t: Tables, table: TableId)
  {
    SortKeyColumn(table).Some? && NonDecreasing(Column(t, table, SortKeyColumn(table).value))
  }

  /** The table is declared sorted by a key it has, and is not. */
  predicate Lies(t: Tables, table: TableId)
  {
    SortKeyColumn(table).Some? && BitSet(t.declaredSorted, table) && !KeyOrdered(t, table)
  }

  /** The tables below `slot` that are ordered by their key column. */
  function OrderedBelow(t: Tables, slot: nat): Flags
    requires slot <= 64
  {
    seq(64, id => id < slot && KnownTable(id) && KeyOrdered(t, id))
  }

  function Verified(t: Tables, strict: bool): Result<Flags>
  {
    if strict && exists id | 0 <= id < 64 && KnownTable(id) :: Lies(t, id) then Err(Malformed)
    else Ok(OrderedBelow(t, 64))
  }

  /** `Tables::parse`. */
  function ParseTables(schema: Schema, data: seq<byte>, strict: bool): Result<Tables>
  {
    var t :- ParseLayout(schema, data, strict);
    var sorted :- Verified(t, strict);
    Ok(t.(sorted := sorted))
  }

  // What every table stream the lookups see satisfies.

  ghost predicate Consistent(schema: Schema, t: Tables) {
    Readable(schema, t) && Honest(t)
  }

  /** A table marked sorted is ordered by its key. */
  ghost predicate Honest(t: Tables) {
    forall table: TableId | t.sorted[table] && SortKeyColumn(table).Some? :: KeyOrdered(t, table)
  }

  lemma LayoutsReadable(schema: Schema, t: Tables)
    requires LayoutsSafe(schema, t.layouts, |t.data|)
    ensures Readable(schema, t)
  {
    hide RawColumn, Sum;
    forall table: TableId ensures |t.layouts[table].offsets| == |t.layouts[table].widths| {
      assert LayoutSafe(schema[table], t.layouts[table], |t.data|);
    }
    hide LayoutsSafe;
    forall table: TableId, rid: nat, column: nat
      ensures RawColumn(t, table, rid, column).Ok? <==> 1 <= rid <= RowCount(t, table) && column < |schema[table]|
    {
      RawColumnTotal(schema, t, table, rid, column);
    }
  }

  /** The verified bits are not part of what a column read sees. */
  lemma SortedBitsIrrelevant(t: Tables, sorted: Flags, table: TableId, column: nat)
    ensures Column(t.(sorted := sorted), table, column) == Column(t, table, column)
  {
    hide RawColumn;
    var u := t.(sorted := sorted);
    forall rid: nat ensures RawColumn(u, table, rid, column) == RawColumn(t, table, rid, column) {
      SortedBitsUnread(t, sorted, table, rid, column);
    }
  }

  lemma SortedBitsUnread(t: Tables, sorted: Flags, table: TableId, rid: nat, column: nat)
    ensures RawColumn(t.(sorted := sorted), table, rid, column) == RawColumn(t, table, rid, column)
  {
    hide ReadUintAt;
  }

  /**
   * Whatever bytes are parsed: every cell of the result reads, and a table's sorted bit is set
   * exactly when it has a key column and that column is non-decreasing.
   */
  lemma {:induction false} ParsedConsistent(schema: Schema, data: seq<byte>, strict: bool)
    requires ValidSchema(schema) && ParseTables(schema, data, strict).Ok?
    ensures var t := ParseTables(schema, data, strict).value;
            && Consistent(schema, t)
            && (forall table: TableId :: t.sorted[table] <==> KeyOrdered(t, table))
            && (strict ==> forall table: TableId :: !Lies(t, table))
  {
    hide RawColumn, Cell, Column, ParseLayout, LayoutsSafe, Packed, BitSet, ValidSchema, NonDecreasing, Readable, SortKeyColumn;
    var u := ParseLayout(schema, data, strict).value;
    var start := ParsedLayoutSafe(schema, data, strict);
    var t := ParseTables(schema, data, strict).value;
    LayoutsReadable(schema, u);
    LayoutsReadable(schema, t);
    forall table: TableId, column: nat ensures Column(t, table, column) == Column(u, table, column) {
      SortedBitsIrrelevant(u, t.sorted, table, column);
    }
    forall table: TableId
      ensures t.sorted[table] <==> KeyOrdered(t, table)
      ensures strict ==> !Lies(t, table)
    {
      assert KeyOrdered(t, table) == KeyOrdered(u, table);
      assert Lies(t, table) == Lies(u, table);
    }
  }

  /** `Tables::empty`: no rows at all, and every bit set. */
  function EmptyTables(): Tables {
    Tables([], 0, [0, 0, 0, 0, 0, 0, 0, 0], [0, 0, 0, 0, 0, 0, 0, 0], None, seq(64, i => NO_LAYOUT), seq(64, i => true))
  }

  lemma EmptyConsistent(schema: Schema)
    ensures Consistent(schema, EmptyTables())
    ensures forall table: TableId ::
              && RowCount(EmptyTables(), table) == 0 && EmptyTables().sorted[table]
              && !BitSet(EmptyTables().valid, table) && !BitSet(EmptyTables().declaredSorted, table)
  {
    var t := EmptyTables();
    forall table: TableId, rid: nat, column: nat
      ensures RawColumn(t, table, rid, column).Err? && RowCount(t, table) == 0
    {}
  }

  // The verification loop. Column reads are fallible, as in the original; on readable tables none fails.

  /** The scan of one key column, comparing each cell with the one before it. */
  method IsOrdered(schema: Schema, t: Tables, table: TableId, column: nat) returns (out: Result<bool>)
    requires RowCount(t, table) > 1
    ensures out.Ok? ==> out.value == NonDecreasing(Column(t, table, column))
    ensures Readable(schema, t) && column < |schema[table]| ==> out.Ok?
  {
    hide RawColumn, Cell, Readable;
    ghost var cells := Column(t, table, column);
    ReadCell(schema, t, table, 1, column);
    var previous :- RawColumn(t, table, 1, column);
    var count := RowCount(t, table);
    for rid := 2 to count + 1
      invariant previous == cells[rid - 2]
      invariant NonDecreasing(cells[..rid - 1])
    {
      ReadCell(schema, t, table, rid, column);
      var value :- RawColumn(t, table, rid, column);
      if value < previous {
        return Ok(false);
      }
      previous := value;
    }
    assert cells[..count] == cells;
    return Ok(true);
  }

  method VerifySortedness(schema: Schema, t: Tables, strict: bool) returns (out: Result<Flags>)
    requires ValidSchema(schema)
    ensures out.Ok? ==> out == Verified(t, strict)
    ensures Readable(schema, t) ==> out == Verified(t, strict)
  {
    hide Column, NonDecreasing, BitSet, SortKeyColumn, Readable;
    var bits := NoFlags();
    for slot := 0 to 64
      invariant bits == OrderedBelow(t, slot)
      invariant strict ==> forall id | 0 <= id < slot && KnownTable(id) :: !Lies(t, id)
    {
      if KnownTable(slot) && SortKeyColumn(slot).Some? {
        var column := SortKeyColumn(slot).value;
        var sorted := true;
        if RowCount(t, slot) > 1 {
          sorted :- IsOrdered(schema, t, slot, column);
        } else {
          ShortOrdered(Column(t, slot, column));
        }
        if sorted {
          bits := bits[slot := true];
        } else if strict && BitSet(t.declaredSorted, slot) {
          assert Lies(t, slot);
          return Err(Malformed);
        }
      }
    }
    return Ok(bits);
  }

  lemma ShortOrdered(cells: seq<u32>)
    requires |cells| <= 1
    ensures NonDecreasing(cells)
  {}

  method Parse(schema: Schema, data: seq<byte>, strict: bool) returns (out: Result<Tables>)
    requires ValidSchema(schema)
    ensures out == ParseTables(schema, data, strict)
  {
    hide ParseLayout, Verified, LayoutsSafe, Packed, Readable, ValidSchema;
    var t :- ReadLayout(schema, data, strict);
    ghost var start := ParsedLayoutSafe(schema, data, strict);
    LayoutsReadable(schema, t);
    var sorted :- VerifySortedness(schema, t, strict);
    return Ok(t.(sorted := sorted));
  }
}
