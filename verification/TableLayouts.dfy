/**
 * The table stream (src/tables/mod.rs, section II.24.2.6 of ECMA-335): header, row counts,
 * column widths and offsets, clamping of counts the stream cannot hold, and column reads.
 */
module TableLayouts {
  import opened Wrappers
  import opened Bytes
  import opened Tokens
  import opened Readers
  import opened TableSchema
  import opened TableCoded

  // Bit vectors, kept as their little-endian bytes.

  predicate BitAt(b: nat, k: nat) {
    if k == 0 then b % 2 == 1 else BitAt(b / 2, k - 1)
  }

  type Bits = s: seq<byte> | |s| == 8 witness [0, 0, 0, 0, 0, 0, 0, 0]

  /** Bit `i` of the 64-bit little-endian value `v`. */
  predicate BitSet(v: Bits, i: nat)
    requires i < 64
  {
    BitAt(v[i / 8], i % 8)
  }

  // The geometry of one table.

  datatype TableLayout = TableLayout(rowCount: nat, rowSize: nat, offsets: seq<nat>, widths: seq<nat>, dataOffset: nat) {
    function ByteSize(): nat {
      rowCount * rowSize
    }
  }

  const NO_LAYOUT := TableLayout(0, 0, [], [], 0)

  function Widths(columns: seq<ColumnKind>, counts: Counts, heapSizes: byte): (ws: seq<nat>)
    ensures |ws| == |columns|
    ensures forall i | 0 <= i < |ws| :: ws[i] == ColumnWidth(columns[i], counts, heapSizes)
  {
    seq(|columns|, i requires 0 <= i < |columns| => ColumnWidth(columns[i], counts, heapSizes))
  }

  function Sum(ws: seq<nat>): nat {
    if ws == [] then 0 else Sum(ws[..|ws| - 1]) + ws[|ws| - 1]
  }

  /** Where each column starts: the widths of the columns before it. */
  function Offsets(ws: seq<nat>): (os: seq<nat>)
    ensures |os| == |ws|
  {
    seq(|ws|, i requires 0 <= i < |ws| => Sum(ws[..i]))
  }

  function LayoutOf(columns: seq<ColumnKind>, counts: Counts, heapSizes: byte, rowCount: nat, dataOffset: nat): TableLayout {
    var ws := Widths(columns, counts, heapSizes);
    TableLayout(rowCount, Sum(ws), Offsets(ws), ws, dataOffset)
  }

  /** The rows a table gets, and whether the stream is exhausted from here on. */
  function ClampedRows(count: nat, rowSize: nat, available: nat, exhausted: bool): (nat, bool) {
    if count == 0 then (0, exhausted)
    else if exhausted || count * rowSize > available then (if rowSize == 0 then 0 else available / rowSize, true)
    else (count, exhausted)
  }

  /** The layouts of slots `slot..64`, laid out from `cursor` on. */
  function LayoutsFrom(schema: Schema, counts: Counts, heapSizes: byte, size: nat, slot: nat, cursor: nat, exhausted: bool, strict: bool)
    : (r: Result<seq<TableLayout>>)
    requires slot <= 64
    ensures r.Ok? ==> |r.value| == 64 - slot
    decreases 64 - slot, |schema|
  {
    if slot == 64 then Ok([])
    else if !KnownTable(slot) then
      var rest :- LayoutsFrom(schema, counts, heapSizes, size, slot + 1, cursor, exhausted, strict);
      Ok([NO_LAYOUT] + rest)
    else
      var empty := LayoutOf(schema[slot], counts, heapSizes, 0, cursor);
      var available := if cursor <= size then size - cursor else 0;
      var (rows, exhausted') := ClampedRows(counts[slot], empty.rowSize, available, exhausted);
      if counts[slot] > 0 && exhausted' && strict then Err(Truncated)
      else
        var layout := empty.(rowCount := rows);
        var rest :- LayoutsFrom(schema, counts, heapSizes, size, slot + 1, cursor + layout.ByteSize(), exhausted', strict);
        Ok([layout] + rest)
  }

  /** The declared row counts of slots `slot..64`, and the unread bytes after them. */
  function CountsFrom(s: seq<byte>, valid: Bits, slot: nat, strict: bool): (r: Result<(seq<u32>, seq<byte>)>)
    requires slot <= 64
    ensures r.Ok? ==> |r.value.0| == 64 - slot && |r.value.1| <= |s|
    decreases 64 - slot, |s|
  {
    if slot == 64 then Ok(([], s))
    else if !BitSet(valid, slot) then
      var (counts, rest) :- CountsFrom(s, valid, slot + 1, strict);
      Ok(([0] + counts, rest))
    else if |s| < 4 then Err(Truncated)
    else
      var count := Le32(s[..4]);
      if !KnownTable(slot) && (count != 0 || strict) then Err(Unsupported)
      else
        var (counts, rest) :- CountsFrom(s[4..], valid, slot + 1, strict);
        Ok(([if KnownTable(slot) then count else 0] + counts, rest))
  }

  type Layouts = s: seq<TableLayout> | |s| == 64 witness seq(64, i => NO_LAYOUT)
  type Flags = s: seq<bool> | |s| == 64 witness seq(64, i => false)

  function NoFlags(): Flags {
    seq(64, i => false)
  }

  /** `sorted` holds the verified bits, one flag a table id. */
  datatype Tables = Tables(
    data: seq<byte>, heapSizes: byte, valid: Bits, declaredSorted: Bits, extraData: Option<u32>,
    layouts: Layouts, sorted: Flags)

  type Header = s: seq<byte> | |s| == 24 witness seq(24, i => 0)

  /** Everything `Tables::parse` computes before it verifies sortedness. */
  function ParseLayout(schema: Schema, data: seq<byte>, strict: bool): Result<Tables>
  {
    if |data| < 24 then Err(Truncated)
    else ParseAfterHeader(schema, data, data[..24], data[24..], strict)
  }

  /** The counts, the extra word and the layouts, from the unread bytes `s` after the header. */
  function ParseAfterHeader(schema: Schema, data: seq<byte>, header: Header, s: seq<byte>, strict: bool): Result<Tables>
    requires |s| <= |data|
  {
    if HeapBit(header[6], 0x10) && strict then Err(Malformed)
    else
      var (counts, rest) :- CountsFrom(s, header[8..16], 0, strict);
      if HeapBit(header[6], 0x40) && |rest| < 4 then Err(Truncated)
      else
        var extra := if HeapBit(header[6], 0x40) then Some(Le32(rest[..4])) else None;
        var start := |data| - |rest| + (if extra.Some? then 4 else 0);
        var layouts :- LayoutsFrom(schema, counts, header[6], |data|, 0, start, false, strict);
        Ok(Tables(data, header[6], header[8..16], header[16..24], extra, layouts, NoFlags()))
  }

  // Reading.

  /** A little-endian value of 2 or 4 bytes at `offset`, if it lies inside `s`. */
  function ReadUintAt(s: seq<byte>, offset: nat, width: nat): Option<u32> {
    if width == 2 && offset + 2 <= |s| then Some(Le16(s[offset..offset + 2]))
    else if width == 4 && offset + 4 <= |s| then Some(Le32(s[offset..offset + 4]))
    else None
  }

  function RowCount(t: Tables, table: TableId): nat
  {
    t.layouts[table].rowCount
  }

  function RowBytes(t: Tables, table: TableId, rid: nat): Result<seq<byte>>
  {
    var layout := t.layouts[table];
    if rid == 0 || rid > layout.rowCount then Err(OutOfRange)
    else
      var start := layout.dataOffset + (rid - 1) * layout.rowSize;
      if start + layout.rowSize > |t.data| then Err(Truncated)
      else Ok(t.data[start..start + layout.rowSize])
  }

  /** The cell where a row and a column meet, or why there is none. */
  function RawColumn(t: Tables, table: TableId, rid: nat, column: nat): Result<u32>
  {
    var layout := t.layouts[table];
    if column >= |layout.widths| || column >= |layout.offsets| then Err(OutOfRange)
    else
      var row :- RowBytes(t, table, rid);
      match ReadUintAt(row, layout.offsets[column], layout.widths[column])
      case Some(v) => Ok(v)
      case None => Err(Truncated)
  }

  /** How many rows list columns range over: those of a non-empty pointer table, else the table's own. */
  function LogicalRowCount(t: Tables, table: TableId): nat
  {
    match PtrSource(table)
    case Some(ptr) => if RowCount(t, ptr) > 0 then RowCount(t, ptr) else RowCount(t, table)
    case None => RowCount(t, table)
  }

  /** The row a logical row id stands for: the cell of a non-empty pointer table, else the id itself. */
  function ResolveIndirection(t: Tables, table: TableId, rid: nat): Result<nat>
  {
    match PtrSource(table)
    case None => Ok(rid)
    case Some(ptr) => if RowCount(t, ptr) == 0 then Ok(rid) else RawColumn(t, ptr, rid, 0)
  }

  // Layout safety.

  /** The columns tile the row: widths of 2 or 4, each offset the sum of the widths before it. */
  predicate Tiled(layout: TableLayout) {
    && layout.offsets == Offsets(layout.widths)
    && layout.rowSize == Sum(layout.widths)
    && forall i | 0 <= i < |layout.widths| :: layout.widths[i] == 2 || layout.widths[i] == 4
  }

  /** The layout has the columns its table should have, and lies inside the stream. */
  predicate LayoutSafe(columns: seq<ColumnKind>, layout: TableLayout, size: nat) {
    Tiled(layout) && |layout.widths| == |columns| && layout.dataOffset + layout.ByteSize() <= size
  }

  /** From `cursor` on, the tables of slots `slot..64` are safe, and contiguous in id order. */
  ghost predicate Packed(schema: Schema, layouts: seq<TableLayout>, slot: nat, cursor: nat, size: nat)
    requires slot + |layouts| == 64
    decreases |layouts|
  {
    if layouts == [] then cursor <= size
    else if !KnownTable(slot) then layouts[0] == NO_LAYOUT && Packed(schema, layouts[1..], slot + 1, cursor, size)
    else
      && layouts[0].dataOffset == cursor && LayoutSafe(schema[slot], layouts[0], size)
      && Packed(schema, layouts[1..], slot + 1, cursor + layouts[0].ByteSize(), size)
  }

  ghost predicate LayoutsSafe(schema: Schema, layouts: seq<TableLayout>, size: nat)
  {
    |layouts| == 64 && forall t | 0 <= t < 64 :: LayoutSafe(schema[t], layouts[t], size)
  }

  lemma {:induction false} PackedSafe(schema: Schema, layouts: seq<TableLayout>, slot: nat, cursor: nat, size: nat, t: nat)
    requires slot + |layouts| == 64 && slot <= t < 64
    requires forall u | 0 <= u < 64 && !KnownTable(u) :: schema[u] == []
    requires Packed(schema, layouts, slot, cursor, size)
    ensures LayoutSafe(schema[t], layouts[t - slot], size)
    decreases |layouts|
  {
    hide LayoutSafe;
    if t == slot {
      NoLayoutSafe(size);
    } else {
      PackedSafe(schema, layouts[1..], slot + 1, if KnownTable(slot) then cursor + layouts[0].ByteSize() else cursor, size, t);
      assert layouts[1..][t - (slot + 1)] == layouts[t - slot];
    }
  }

  lemma NoLayoutSafe(size: nat)
    ensures LayoutSafe([], NO_LAYOUT, size)
  {}

  lemma {:induction false} SumBounds(ws: seq<nat>, i: nat)
    requires i < |ws|
    ensures Sum(ws[..i]) + ws[i] == Sum(ws[..i + 1]) <= Sum(ws)
    decreases |ws|
  {
    assert ws[..i + 1][..i] == ws[..i];
    if i + 1 == |ws| {
      assert ws[..i + 1] == ws;
    } else {
      var init := ws[..|ws| - 1];
      SumBounds(init, i);
      assert init[..i] == ws[..i] && init[..i + 1] == ws[..i + 1];
    }
  }

  lemma ClampedRowsFit(count: nat, rowSize: nat, available: nat, exhausted: bool)
    ensures ClampedRows(count, rowSize, available, exhausted).0 * rowSize <= available
  {
    if rowSize > 0 {
      var q := available / rowSize;
      assert q * rowSize <= available;
    }
  }

  lemma LayoutTiled(columns: seq<ColumnKind>, counts: Counts, heapSizes: byte, rowCount: nat, dataOffset: nat)
    ensures var layout := LayoutOf(columns, counts, heapSizes, rowCount, dataOffset);
            Tiled(layout) && |layout.widths| == |columns|
  {}

  lemma LayoutRows(columns: seq<ColumnKind>, counts: Counts, heapSizes: byte, rows: nat, cursor: nat, size: nat)
    requires var rowSize := LayoutOf(columns, counts, heapSizes, 0, cursor).rowSize;
             cursor + rows * rowSize <= size
    ensures var layout := LayoutOf(columns, counts, heapSizes, 0, cursor).(rowCount := rows);
            LayoutSafe(columns, layout, size) && layout.dataOffset == cursor
            && layout == LayoutOf(columns, counts, heapSizes, rows, cursor)
  {
    LayoutTiled(columns, counts, heapSizes, rows, cursor);
  }

  /** Whatever the declared counts, layouts that are computed at all are tiled, packed and inside the stream. */
  lemma {:induction false} LayoutsFromPacked(schema: Schema, counts: Counts, heapSizes: byte, size: nat, slot: nat, cursor: nat, exhausted: bool, strict: bool)
    requires slot <= 64 && cursor <= size
    requires LayoutsFrom(schema, counts, heapSizes, size, slot, cursor, exhausted, strict).Ok?
    ensures Packed(schema, LayoutsFrom(schema, counts, heapSizes, size, slot, cursor, exhausted, strict).value, slot, cursor, size)
    decreases 64 - slot
  {
    hide LayoutSafe, LayoutOf, ClampedRows;
    if slot == 64 {
    } else {
      if !KnownTable(slot) {
        LayoutsFromPacked(schema, counts, heapSizes, size, slot + 1, cursor, exhausted, strict);
      } else {
        var empty := LayoutOf(schema[slot], counts, heapSizes, 0, cursor);
        var (rows, exhausted') := ClampedRows(counts[slot], empty.rowSize, size - cursor, exhausted);
        ClampedRowsFit(counts[slot], empty.rowSize, size - cursor, exhausted);
        LayoutRows(schema[slot], counts, heapSizes, rows, cursor, size);
        LayoutsFromPacked(schema, counts, heapSizes, size, slot + 1, cursor + rows * empty.rowSize, exhausted', strict);
      }
    }
  }

  /**
   * Layout safety under hostile counts: whenever parsing succeeds the tables lie contiguously,
   * in id order, inside the stream, and their columns tile each row.
   */
  lemma ParsedLayoutSafe(schema: Schema, data: seq<byte>, strict: bool) returns (start: nat)
    requires ValidSchema(schema) && ParseLayout(schema, data, strict).Ok?
    ensures var t := ParseLayout(schema, data, strict).value;
            && t.data == data && |t.layouts| == 64 && t.sorted == NoFlags()
            && 24 <= start && Packed(schema, t.layouts, 0, start, |data|)
            && LayoutsSafe(schema, t.layouts, |data|)
  {
    hide LayoutsFrom, CountsFrom, HeapBit, Packed, LayoutSafe, BitSet;
    var header := data[..24];
    var heapSizes := header[6];
    var (counts, s) := CountsFrom(data[24..], header[8..16], 0, strict).value;
    start := |data| - |s| + (if HeapBit(heapSizes, 0x40) then 4 else 0);
    LayoutsFromPacked(schema, counts, heapSizes, |data|, 0, start, false, strict);
    var layouts := ParseLayout(schema, data, strict).value.layouts;
    forall t | 0 <= t < 64 ensures LayoutSafe(schema[t], layouts[t], |data|) {
      PackedSafe(schema, layouts, 0, start, |data|, t);
    }
  }

  /** A column read succeeds exactly for the rows and columns the layout has. */
  lemma RawColumnTotal(schema: Schema, t: Tables, table: TableId, rid: nat, column: nat)
    requires LayoutsSafe(schema, t.layouts, |t.data|)
    ensures RawColumn(t, table, rid, column).Ok? <==> 1 <= rid <= RowCount(t, table) && column < |schema[table]|
  {
    hide Sum;
    var layout := t.layouts[table];
    if 1 <= rid <= layout.rowCount && column < |layout.widths| {
      RowInside(rid, layout.rowCount, layout.rowSize);
      SumBounds(layout.widths, column);
      assert layout.offsets[column] == Sum(layout.widths[..column]);
    }
  }

  lemma RowInside(rid: nat, rows: nat, size: nat)
    requires 1 <= rid <= rows
    ensures (rid - 1) * size + size == rid * size <= rows * size
  {
    assert (rid - 1) * size + size == rid * size;
    MulMono(size + 1, rid, rows);
    assert rid * size <= rows * size by {
      if size > 0 {
        MulMono(size, rid, rows);
      }
    }
  }

  // Clamping, exactly.

  /** A table clamped to what is left of the stream; an empty one stays empty. */
  predicate Clamped(layout: TableLayout, count: nat, size: nat) {
    layout.rowCount ==
    if count == 0 || layout.rowSize == 0 || layout.dataOffset > size then 0
    else (size - layout.dataOffset) / layout.rowSize
  }

  /** One known table of the permissive layout. */
  lemma LayoutsStep(schema: Schema, counts: Counts, heapSizes: byte, size: nat, slot: nat, cursor: nat, exhausted: bool)
    requires slot < 64 && KnownTable(slot) && cursor <= size
    ensures var empty := LayoutOf(schema[slot], counts, heapSizes, 0, cursor);
            var (rows, exhausted') := ClampedRows(counts[slot], empty.rowSize, size - cursor, exhausted);
            var tail := LayoutsFrom(schema, counts, heapSizes, size, slot + 1, cursor + rows * empty.rowSize, exhausted', false);
            LayoutsFrom(schema, counts, heapSizes, size, slot, cursor, exhausted, false) ==
              if tail.Ok? then Ok([empty.(rowCount := rows)] + tail.value) else tail
  {
    hide LayoutOf, ClampedRows;
  }

  lemma LayoutsEnd(schema: Schema, counts: Counts, heapSizes: byte, size: nat, cursor: nat, exhausted: bool)
    ensures LayoutsFrom(schema, counts, heapSizes, size, 64, cursor, exhausted, false) == Ok([])
  {}

  lemma LayoutsSkip(schema: Schema, counts: Counts, heapSizes: byte, size: nat, slot: nat, cursor: nat, exhausted: bool)
    requires slot < 64 && !KnownTable(slot)
    ensures var tail := LayoutsFrom(schema, counts, heapSizes, size, slot + 1, cursor, exhausted, false);
            LayoutsFrom(schema, counts, heapSizes, size, slot, cursor, exhausted, false) ==
              if tail.Ok? then Ok([NO_LAYOUT] + tail.value) else tail
  {}

  lemma {:induction false} ExhaustedClampsAll(schema: Schema, counts: Counts, heapSizes: byte, size: nat, slot: nat, cursor: nat)
    requires slot <= 64 && cursor <= size
    ensures var layouts := LayoutsFrom(schema, counts, heapSizes, size, slot, cursor, true, false);
            layouts.Ok? && forall t | slot <= t < 64 && KnownTable(t) :: Clamped(layouts.value[t - slot], counts[t], size)
    decreases 64 - slot
  {
    hide LayoutOf, LayoutsFrom;
    if slot == 64 {
      LayoutsEnd(schema, counts, heapSizes, size, cursor, true);
    } else {
      if !KnownTable(slot) {
        LayoutsSkip(schema, counts, heapSizes, size, slot, cursor, true);
        ExhaustedClampsAll(schema, counts, heapSizes, size, slot + 1, cursor);
      } else {
        var empty := LayoutOf(schema[slot], counts, heapSizes, 0, cursor);
        LayoutAt(schema[slot], counts, heapSizes, cursor);
        LayoutsStep(schema, counts, heapSizes, size, slot, cursor, true);
        var rows := ClampedRows(counts[slot], empty.rowSize, size - cursor, true).0;
        ClampedRowsFit(counts[slot], empty.rowSize, size - cursor, true);
        ExhaustedClampsAll(schema, counts, heapSizes, size, slot + 1, cursor + rows * empty.rowSize);
      }
    }
  }

  lemma LayoutAt(columns: seq<ColumnKind>, counts: Counts, heapSizes: byte, cursor: nat)
    ensures LayoutOf(columns, counts, heapSizes, 0, cursor).dataOffset == cursor
  {}

  /** Counts are kept before `point`; there the first table that does not fit stands, and clamping starts. */
  ghost predicate ClampsFrom(layouts: seq<TableLayout>, counts: Counts, size: nat, slot: nat, point: nat)
    requires slot + |layouts| == 64
  {
    && slot <= point <= 64
    && (forall t | slot <= t < point && KnownTable(t) :: layouts[t - slot].rowCount == counts[t])
    && (forall t | point <= t < 64 && KnownTable(t) :: Clamped(layouts[t - slot], counts[t], size))
    && (point < 64 ==>
          var first := layouts[point - slot];
          KnownTable(point) && first.dataOffset + counts[point] * first.rowSize > size)
  }

  /**
   * Permissive layout always succeeds, and clamps from one point on: the tables before the first
   * one that does not fit keep their declared counts, and it and every later non-empty one get as
   * many rows as are left, even more than they declared.
   */
  lemma {:induction false} ClampPoint(schema: Schema, counts: Counts, heapSizes: byte, size: nat, slot: nat, cursor: nat) returns (point: nat)
    requires slot <= 64 && cursor <= size
    ensures var layouts := LayoutsFrom(schema, counts, heapSizes, size, slot, cursor, false, false);
            layouts.Ok? && ClampsFrom(layouts.value, counts, size, slot, point)
    decreases 64 - slot
  {
    ClampsNothing(counts, size);
    hide LayoutOf, ClampedRows, ClampsFrom, Clamped, LayoutsFrom;
    if slot == 64 {
      LayoutsEnd(schema, counts, heapSizes, size, cursor, false);
      point := 64;
    } else {
      var rest := slot + 1;
      if !KnownTable(slot) {
        LayoutsSkip(schema, counts, heapSizes, size, slot, cursor, false);
        point := ClampPoint(schema, counts, heapSizes, size, rest, cursor);
        ClampsLater(NO_LAYOUT, LayoutsFrom(schema, counts, heapSizes, size, rest, cursor, false, false).value, counts, size, slot, point);
      } else {
        var empty := LayoutOf(schema[slot], counts, heapSizes, 0, cursor);
        LayoutAt(schema[slot], counts, heapSizes, cursor);
        var (rows, exhausted) := ClampedRows(counts[slot], empty.rowSize, size - cursor, false);
        ClampedRowsFit(counts[slot], empty.rowSize, size - cursor, false);
        LayoutsStep(schema, counts, heapSizes, size, slot, cursor, false);
        var next := cursor + rows * empty.rowSize;
        var tail := LayoutsFrom(schema, counts, heapSizes, size, rest, next, exhausted, false);
        if exhausted {
          ExhaustedClampsAll(schema, counts, heapSizes, size, rest, next);
          FirstClamped(empty, counts[slot], size);
          point := slot;
          ClampsHere(empty.(rowCount := rows), tail.value, counts, size, slot);
        } else {
          Kept(counts[slot], empty.rowSize, size - cursor);
          point := ClampPoint(schema, counts, heapSizes, size, rest, next);
          ClampsLater(empty.(rowCount := rows), tail.value, counts, size, slot, point);
        }
      }
    }
  }

  lemma ClampsNothing(counts: Counts, size: nat)
    ensures ClampsFrom([], counts, size, 64, 64)
  {}

  lemma ClampsLater(first: TableLayout, rest: seq<TableLayout>, counts: Counts, size: nat, slot: nat, point: nat)
    requires slot < 64 && slot + 1 + |rest| == 64 && ClampsFrom(rest, counts, size, slot + 1, point)
    requires KnownTable(slot) ==> first.rowCount == counts[slot]
    ensures ClampsFrom([first] + rest, counts, size, slot, point)
  {
    hide Clamped;
    assert ([first] + rest)[1..] == rest;
  }

  lemma ClampsHere(first: TableLayout, rest: seq<TableLayout>, counts: Counts, size: nat, slot: nat)
    requires slot < 64 && slot + 1 + |rest| == 64 && KnownTable(slot)
    requires Clamped(first, counts[slot], size) && first.dataOffset + counts[slot] * first.rowSize > size
    requires forall t | slot + 1 <= t < 64 && KnownTable(t) :: Clamped(rest[t - (slot + 1)], counts[t], size)
    ensures ClampsFrom([first] + rest, counts, size, slot, slot)
  {
    hide Clamped;
    assert ([first] + rest)[1..] == rest;
  }

  lemma Kept(count: nat, rowSize: nat, available: nat)
    requires !ClampedRows(count, rowSize, available, false).1
    ensures ClampedRows(count, rowSize, available, false).0 == count
  {}

  lemma FirstClamped(empty: TableLayout, count: nat, size: nat)
    requires empty.dataOffset <= size && ClampedRows(count, empty.rowSize, size - empty.dataOffset, false).1
    ensures var rows := ClampedRows(count, empty.rowSize, size - empty.dataOffset, false).0;
            Clamped(empty.(rowCount := rows), count, size) && empty.dataOffset + count * empty.rowSize > size
  {}

  /**
   * Strict parsing clamps nothing: where it succeeds every table keeps its declared count, and
   * permissive parsing gives the same layouts.
   */
  lemma {:induction false} StrictNeverClamps(schema: Schema, counts: Counts, heapSizes: byte, size: nat, slot: nat, cursor: nat)
    requires slot <= 64
    requires LayoutsFrom(schema, counts, heapSizes, size, slot, cursor, false, true).Ok?
    ensures LayoutsFrom(schema, counts, heapSizes, size, slot, cursor, false, false)
         == LayoutsFrom(schema, counts, heapSizes, size, slot, cursor, false, true)
    ensures var layouts := LayoutsFrom(schema, counts, heapSizes, size, slot, cursor, false, true).value;
            forall t | slot <= t < 64 && KnownTable(t) :: layouts[t - slot].rowCount == counts[t]
    decreases 64 - slot
  {
    hide LayoutOf, TableLayout.ByteSize;
    if slot == 64 {
    } else {
      if !KnownTable(slot) {
        StrictNeverClamps(schema, counts, heapSizes, size, slot + 1, cursor);
      } else {
        var layout := LayoutOf(schema[slot], counts, heapSizes, 0, cursor).(rowCount := counts[slot]);
        StrictNeverClamps(schema, counts, heapSizes, size, slot + 1, cursor + layout.ByteSize());
      }
    }
  }

  // The parser.

  /** `Tables::parse` up to the layout: the header through a cursor, then the two table loops. */
  method ReadLayout(schema: Schema, data: seq<byte>, strict: bool) returns (out: Result<Tables>)
    ensures out == ParseLayout(schema, data, strict)
  {
    hide ParseAfterHeader;
    var r := new Reader(data);
    assert r.Rest() == data;
    var header :- ReadHeader(r);
    assert data[..24][8..16] == data[8..16] && data[..24][16..24] == data[16..24];
    out := ReadAfterHeader(schema, r, header, data[..24], strict);
  }

  /** The fields of the header, one read each; only the heap sizes and the two bit vectors are kept. */
  method ReadHeader(r: Reader) returns (out: Result<(byte, Bits, Bits)>)
    requires r.Valid()
    modifies r
    ensures r.Valid()
    ensures var s := old(r.Rest());
            if |s| >= 24 then out == Ok((s[6], s[8..16], s[16..24])) && r.Rest() == s[24..] else out == Err(Truncated)
  {
    hide Le32, Le64, Put64;
    ghost var s := r.Rest();
    var reserved :- r.U32();
    var majorVersion :- r.U8();
    var minorVersion :- r.U8();
    var heapSizes :- r.U8();
    assert r.Rest() == s[7..];
    var reserved2 :- r.U8();
    assert r.Rest() == s[8..];
    var valid :- r.U64();
    assert s[8..][..8] == s[8..16];
    assert r.Rest() == s[16..];
    var declaredSorted :- r.U64();
    assert s[16..][..8] == s[16..24];
    assert r.Rest() == s[24..];
    Put64Le64(s[8..16]);
    Put64Le64(s[16..24]);
    return Ok((heapSizes, Put64(valid), Put64(declaredSorted)));
  }

  method ReadAfterHeader(schema: Schema, r: Reader, parts: (byte, Bits, Bits), ghost header: Header, strict: bool)
    returns (out: Result<Tables>)
    requires r.Valid() && parts == (header[6], header[8..16], header[16..24])
    modifies r
    ensures out == ParseAfterHeader(schema, r.data, header, old(r.Rest()), strict)
  {
    hide CountsFrom, LayoutsFrom, HeapBit, Le32;
    var (heapSizes, valid, declaredSorted) := parts;
    if HeapBit(heapSizes, 0x10) && strict {
      return Err(Malformed);
    }
    var counts :- ReadCounts(r, valid, strict);
    var extra: Option<u32> := None;
    if HeapBit(heapSizes, 0x40) {
      var value :- r.U32();
      extra := Some(value);
    }
    var layouts :- ComputeLayouts(schema, counts, heapSizes, |r.data|, r.pos, strict);
    return Ok(Tables(r.data, heapSizes, valid, declaredSorted, extra, layouts, NoFlags()));
  }

  /** Row counts: one 32-bit count per set bit, in ascending table order. */
  method ReadCounts(r: Reader, valid: Bits, strict: bool) returns (out: Result<Counts>)
    requires r.Valid()
    modifies r
    ensures r.Valid()
    ensures match CountsFrom(old(r.Rest()), valid, 0, strict)
            case Ok(v) => out == Ok(v.0) && r.Rest() == v.1
            case Err(e) => out == Err(e)
  {
    hide BitSet, Le32, KnownTable;
    var counts := new u32[64](i => 0);
    ghost var goal := CountsFrom(r.Rest(), valid, 0, strict);
    ghost var done: seq<u32> := [];
    PrependNone(goal);
    for slot := 0 to 64
      invariant r.Valid() && |done| == slot
      invariant forall i | 0 <= i < 64 :: counts[i] == if i < slot then done[i] else 0
      invariant goal == Prepend(done, CountsFrom(r.Rest(), valid, slot, strict))
    {
      if BitSet(valid, slot) {
        var count :- r.U32();
        if KnownTable(slot) {
          counts[slot] := count;
        } else if count != 0 || strict {
          return Err(Unsupported);
        }
      }
      PrependOne(done, counts[slot], CountsFrom(r.Rest(), valid, slot + 1, strict));
      done := done + [counts[slot]];
    }
    assert counts[..] == done == done + [];
    return Ok(counts[..]);
  }

  /** Layouts, table by table, advancing the cursor and clamping once the stream is exhausted. */
  method ComputeLayouts(schema: Schema, counts: Counts, heapSizes: byte, size: nat, start: nat, strict: bool)
    returns (out: Result<seq<TableLayout>>)
    ensures out == LayoutsFrom(schema, counts, heapSizes, size, 0, start, false, strict)
  {
    hide LayoutOf, ClampedRows, TableLayout.ByteSize;
    var layouts := new TableLayout[64](i => NO_LAYOUT);
    var cursor: nat, exhausted := start, false;
    ghost var goal := LayoutsFrom(schema, counts, heapSizes, size, 0, start, false, strict);
    ghost var done: seq<TableLayout> := [];
    OntoNone(goal);
    for slot := 0 to 64
      invariant |done| == slot
      invariant forall i | 0 <= i < 64 :: layouts[i] == if i < slot then done[i] else NO_LAYOUT
      invariant goal == Onto(done, LayoutsFrom(schema, counts, heapSizes, size, slot, cursor, exhausted, strict))
    {
      if KnownTable(slot) {
        var layout := LayoutOf(schema[slot], counts, heapSizes, 0, cursor);
        var available := if cursor <= size then size - cursor else 0;
        var (rows, exhausted') := ClampedRows(counts[slot], layout.rowSize, available, exhausted);
        if counts[slot] > 0 && exhausted' && strict {
          return Err(Truncated);
        }
        layout := layout.(rowCount := rows);
        layouts[slot] := layout;
        cursor := cursor + layout.ByteSize();
        exhausted := exhausted';
      }
      OntoOne(done, layouts[slot], LayoutsFrom(schema, counts, heapSizes, size, slot + 1, cursor, exhausted, strict));
      done := done + [layouts[slot]];
    }
    assert layouts[..] == done == done + [];
    return Ok(layouts[..]);
  }
}
