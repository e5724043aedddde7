/**
 * Writing a table stream as section II.24.2.6 lays it out, and reading it back: header, one row
 * count per valid bit, the extra word, then the rows of every table in table order, each column in
 * its computed width.
 */
module TableRoundTrip {
  import opened Wrappers
  import opened Bytes
  import opened Tokens
  import opened TableSchema
  import opened TableCoded
  import opened TableStandard
  import opened TableLayouts
  import opened TableSorted

  // Writing.

  function PutCell(v: u32, width: nat): seq<byte> {
    if width == 2 && v < 0x1_0000 then Put16(v) else Put32(v)
  }

  function PutRow(cells: seq<u32>, ws: seq<nat>): seq<byte>
    requires |cells| == |ws|
    decreases |ws|
  {
    if ws == [] then []
    else
      var last := |ws| - 1;
      PutRow(cells[..last], ws[..last]) + PutCell(cells[last], ws[last])
  }

  type Row = seq<u32>

  function PutTable(rows: seq<Row>, ws: seq<nat>): seq<byte>
    requires forall i | 0 <= i < |rows| :: |rows[i]| == |ws|
    decreases |rows|
  {
    if rows == [] then []
    else
      var last := |rows| - 1;
      PutTable(rows[..last], ws) + PutRow(rows[last], ws)
  }

  /** A count is written only where its valid bit is set. */
  function PutCount(count: u32, valid: Bits, slot: nat): seq<byte>
    requires slot < 64
  {
    if BitSet(valid, slot) then Put32(count) else []
  }

  function PutCounts(counts: Counts, valid: Bits, slot: nat): seq<byte>
    requires slot <= 64
    decreases 64 - slot, |counts|
  {
    if slot == 64 then []
    else PutCount(counts[slot], valid, slot) + PutCounts(counts, valid, slot + 1)
  }

  /** The contents of a table: its rows all have its columns, and every cell fits its column. */
  ghost predicate RowsFit(rows: seq<Row>, ws: seq<nat>) {
    forall i | 0 <= i < |rows| :: |rows[i]| == |ws| && forall c | 0 <= c < |ws| :: FitsWidth(rows[i][c], ws[c])
  }

  type Contents = s: seq<seq<Row>> | |s| == 64 && forall t | 0 <= t < 64 :: |s[t]| < 0x1_0000_0000 witness seq(64, t => [])

  function CountsOf(contents: Contents): Counts {
    seq(64, t requires 0 <= t < 64 => |contents[t]|)
  }

  /** What a table stream holds. */
  datatype Image = Image(
    reserved: seq<byte>, heapSizes: byte, reserved2: byte, valid: Bits, declaredSorted: Bits, extra: u32,
    contents: Contents, trailing: seq<byte>)
  {
    function WidthsOf(schema: Schema, t: nat): (ws: seq<nat>)
      requires t < 64
    {
      Widths(schema[t], CountsOf(contents), heapSizes)
    }

    /** Every non-empty table is a known one with its valid bit, and its rows fit. */
    ghost predicate Coherent(schema: Schema) {
      && |reserved| == 6
      && forall t | 0 <= t < 64 ::
           && (contents[t] != [] ==> KnownTable(t) && BitSet(valid, t))
           && RowsFit(contents[t], WidthsOf(schema, t))
    }

    /** Nothing in the header that strict parsing refuses. */
    ghost predicate Conforming() {
      && heapSizes / 0x10 % 2 == 0
      && forall t | 0 <= t < 64 && BitSet(valid, t) :: KnownTable(t)
    }

    function PutTables(schema: Schema, slot: nat): seq<byte>
      requires slot <= 64 && Coherent(schema)
      decreases 64 - slot, |schema|
    {
      if slot == 64 then []
      else PutTable(contents[slot], WidthsOf(schema, slot)) + PutTables(schema, slot + 1)
    }

    function PutHeader(): Header
      requires |reserved| == 6
    {
      reserved + [heapSizes, reserved2] + valid + declaredSorted
    }

    /** Bit 6 of the heap sizes announces an extra word. */
    function PutExtra(): seq<byte> {
      if heapSizes / 0x40 % 2 == 1 then Put32(extra) else []
    }

    function Put(schema: Schema): seq<byte>
      requires Coherent(schema)
    {
      PutHeader() + (PutCounts(CountsOf(contents), valid, 0) +
        (PutExtra() + (PutTables(schema, 0) + trailing)))
    }
  }

  // Cells.

  lemma CellReads(pre: seq<byte>, v: u32, width: nat, post: seq<byte>)
    requires width == 2 || width == 4
    requires FitsWidth(v, width)
    ensures |PutCell(v, width)| == width
    ensures ReadUintAt(pre + PutCell(v, width) + post, |pre|, width) == Some(v)
  {
    hide Put16, Put32, Le16, Le32;
    var s := pre + PutCell(v, width) + post;
    assert s[|pre|..|pre| + width] == PutCell(v, width);
    if width == 2 {
      Le16Put16(v);
    } else {
      Le32Put32(v);
    }
  }

  predicate Narrow(ws: seq<nat>) {
    forall c | 0 <= c < |ws| :: ws[c] == 2 || ws[c] == 4
  }

  lemma {:induction false} RowLength(cells: seq<u32>, ws: seq<nat>)
    requires |cells| == |ws| && Narrow(ws) && forall c | 0 <= c < |ws| :: FitsWidth(cells[c], ws[c])
    ensures |PutRow(cells, ws)| == Sum(ws)
    decreases |ws|
  {
    hide ReadUintAt, FitsWidth, PutCell;
    if ws == [] {
    } else {
      var last := |ws| - 1;
      RowLength(cells[..last], ws[..last]);
      CellReads([], cells[last], ws[last], []);
    }
  }

  /** A row gives back every cell at the offset of its column. */
  lemma {:induction false} RowReads(cells: seq<u32>, ws: seq<nat>, post: seq<byte>, c: nat)
    requires |cells| == |ws| && Narrow(ws) && forall i | 0 <= i < |ws| :: FitsWidth(cells[i], ws[i])
    requires c < |ws|
    ensures ReadUintAt(PutRow(cells, ws) + post, Sum(ws[..c]), ws[c]) == Some(cells[c])
    decreases |ws|
  {
    hide ReadUintAt, FitsWidth, PutCell, Sum;
    var last := |ws| - 1;
    var init := PutRow(cells[..last], ws[..last]);
    var cell := PutCell(cells[last], ws[last]);
    assert PutRow(cells, ws) == init + cell;
    if c == last {
      RowLength(cells[..last], ws[..last]);
      CellReads(init, cells[last], ws[last], post);
    } else {
      RowReads(cells[..last], ws[..last], cell + post, c);
      assert init + (cell + post) == init + cell + post;
      assert ws[..last][..c] == ws[..c];
    }
  }

  // Tables.

  lemma MulNext(n: nat, size: nat)
    requires n > 0
    ensures n * size == (n - 1) * size + size
  {}

  lemma {:induction false} TableLength(rows: seq<Row>, ws: seq<nat>)
    requires Narrow(ws) && RowsFit(rows, ws)
    ensures |PutTable(rows, ws)| == |rows| * Sum(ws)
    decreases |rows|
  {
    hide FitsWidth, Sum, PutRow;
    if rows == [] {
    } else {
      var last := |rows| - 1;
      TableLength(rows[..last], ws);
      RowLength(rows[last], ws);
      MulNext(|rows|, Sum(ws));
    }
  }

  /** A table holds its rows one after the other. */
  lemma {:induction false} TableReads(rows: seq<Row>, ws: seq<nat>, i: nat)
    requires Narrow(ws) && RowsFit(rows, ws) && i < |rows|
    ensures i * Sum(ws) + Sum(ws) <= |PutTable(rows, ws)|
    ensures PutTable(rows, ws)[i * Sum(ws)..i * Sum(ws) + Sum(ws)] == PutRow(rows[i], ws)
    decreases |rows|
  {
    hide FitsWidth, Sum, PutRow;
    var last := |rows| - 1;
    var init := PutTable(rows[..last], ws);
    var row := PutRow(rows[last], ws);
    assert PutTable(rows, ws) == init + row;
    TableLength(rows[..last], ws);
    RowLength(rows[last], ws);
    if i < last {
      TableReads(rows[..last], ws, i);
      SlicePrefix(init, row, i * Sum(ws), Sum(ws));
    }
  }

  lemma SlicePrefix(a: seq<byte>, b: seq<byte>, from: nat, len: nat)
    requires from + len <= |a|
    ensures (a + b)[from..from + len] == a[from..from + len]
  {}

  /** The layout is that of a table with these rows, and the stream has them where it says. */
  ghost predicate Holds(layout: TableLayout, ws: seq<nat>, rows: seq<Row>, data: seq<byte>)
    requires RowsFit(rows, ws)
  {
    && layout.widths == ws && layout.offsets == Offsets(ws) && layout.rowSize == Sum(ws) && layout.rowCount == |rows|
    && layout.dataOffset + layout.ByteSize() <= |data|
    && data[layout.dataOffset..layout.dataOffset + layout.ByteSize()] == PutTable(rows, ws)
  }

  /** Where a table is held, every column read gives its cell. */
  lemma HeldReads(t: Tables, table: TableId, ws: seq<nat>, rows: seq<Row>, rid: nat, column: nat)
    requires Narrow(ws) && RowsFit(rows, ws) && Holds(t.layouts[table], ws, rows, t.data)
    requires 1 <= rid <= |rows| && column < |ws|
    ensures RawColumn(t, table, rid, column) == Ok(rows[rid - 1][column])
  {
    hide FitsWidth, Sum, PutRow, PutTable, ReadUintAt;
    var layout := t.layouts[table];
    TableLength(rows, ws);
    TableReads(rows, ws, rid - 1);
    var start := layout.dataOffset + (rid - 1) * layout.rowSize;
    SliceWithin(t.data, layout.dataOffset, layout.ByteSize(), (rid - 1) * layout.rowSize, layout.rowSize);
    assert RowBytes(t, table, rid) == Ok(PutRow(rows[rid - 1], ws));
    RowReads(rows[rid - 1], ws, [], column);
    assert PutRow(rows[rid - 1], ws) + [] == PutRow(rows[rid - 1], ws);
  }

  lemma SliceWithin(s: seq<byte>, from: nat, len: nat, at: nat, size: nat)
    requires from + len <= |s| && at + size <= len
    ensures s[from + at..from + at + size] == s[from..from + len][at..at + size]
  {
    var a, b := s[from + at..from + at + size], s[from..from + len][at..at + size];
    forall k | 0 <= k < size ensures a[k] == b[k] {
      assert a[k] == s[from + at + k] && s[from..from + len][at + k] == s[from + (at + k)];
    }
  }

  // The two loops of the parser on a written image.

  /** One slot of the counts, if its valid bit is set or its count zero, is read back before the rest. */
  lemma CountStep(count: u32, rest: seq<byte>, valid: Bits, slot: nat, strict: bool, later: seq<u32>, post: seq<byte>)
    requires slot < 64 && (BitSet(valid, slot) && (count != 0 || strict) ==> KnownTable(slot))
    requires BitSet(valid, slot) || count == 0
    requires CountsFrom(rest, valid, slot + 1, strict) == Ok((later, post))
    ensures CountsFrom(PutCount(count, valid, slot) + rest, valid, slot, strict) == Ok(([count] + later, post))
  {
    hide BitSet, Le32, Put32, KnownTable;
    Le32Put32(count);
    var s := PutCount(count, valid, slot) + rest;
    if BitSet(valid, slot) {
      assert s[..4] == Put32(count) && s[4..] == rest;
    } else {
      assert s == rest;
    }
  }

  lemma {:induction false} CountsReadBack(counts: Counts, valid: Bits, slot: nat, post: seq<byte>, strict: bool)
    requires slot <= 64
    requires forall t | slot <= t < 64 && counts[t] != 0 :: KnownTable(t) && BitSet(valid, t)
    requires strict ==> forall t | slot <= t < 64 && BitSet(valid, t) :: KnownTable(t)
    ensures CountsFrom(PutCounts(counts, valid, slot) + post, valid, slot, strict) == Ok((counts[slot..], post))
    decreases 64 - slot
  {
    hide BitSet, KnownTable, CountsFrom, PutCount;
    if slot == 64 {
      CountsEnd(post, valid, strict);
      assert [] + post == post && counts[slot..] == [];
    } else {
      CountsReadBack(counts, valid, slot + 1, post, strict);
      var rest := PutCounts(counts, valid, slot + 1) + post;
      CountStep(counts[slot], rest, valid, slot, strict, counts[slot + 1..], post);
      Reassociate(PutCount(counts[slot], valid, slot), PutCounts(counts, valid, slot + 1), post);
      Uncons(counts, slot);
    }
  }

  lemma Uncons(counts: Counts, slot: nat)
    requires slot < 64
    ensures counts[slot..] == [counts[slot]] + counts[slot + 1..]
  {}

  lemma CountsEnd(s: seq<byte>, valid: Bits, strict: bool)
    ensures CountsFrom(s, valid, 64, strict) == Ok(([], s))
  {}

  lemma WidthsNarrow(columns: seq<ColumnKind>, counts: Counts, heapSizes: byte)
    ensures Narrow(Widths(columns, counts, heapSizes))
  {}

  /** One table of the layout loop: its rows fit what is left, and they are at the cursor. */
  lemma LayoutHolds(schema: Schema, image: Image, data: seq<byte>, slot: nat, cursor: nat, post: seq<byte>)
    requires image.Coherent(schema) && slot < 64 && KnownTable(slot) && cursor <= |data|
    requires data[cursor..] == PutTable(image.contents[slot], image.WidthsOf(schema, slot)) + post
    ensures var layout := LayoutOf(schema[slot], CountsOf(image.contents), image.heapSizes, 0, cursor);
            var rows := |image.contents[slot]|;
            && ClampedRows(rows, layout.rowSize, |data| - cursor, false) == (rows, false)
            && Holds(layout.(rowCount := rows), image.WidthsOf(schema, slot), image.contents[slot], data)
            && cursor + rows * layout.rowSize <= |data|
            && data[cursor + rows * layout.rowSize..] == post
  {
    hide PutTable, Sum, Widths, FitsWidth, CountsOf, Offsets;
    var ws, rows := image.WidthsOf(schema, slot), image.contents[slot];
    WidthsNarrow(schema[slot], CountsOf(image.contents), image.heapSizes);
    TableLength(rows, ws);
    var len := |rows| * Sum(ws);
    assert data[cursor..cursor + len] == data[cursor..][..len];
    assert data[cursor + len..] == data[cursor..][len..];
  }

  lemma {:induction false} LayoutsHold(schema: Schema, image: Image, data: seq<byte>, slot: nat, cursor: nat, post: seq<byte>, strict: bool)
    requires image.Coherent(schema) && slot <= 64 && cursor <= |data|
    requires data[cursor..] == image.PutTables(schema, slot) + post
    ensures var layouts := LayoutsFrom(schema, CountsOf(image.contents), image.heapSizes, |data|, slot, cursor, false, strict);
            && layouts.Ok?
            && forall t | slot <= t < 64 && KnownTable(t) ::
                 Holds(layouts.value[t - slot], image.WidthsOf(schema, t), image.contents[t], data)
    decreases 64 - slot
  {
    hide Holds, LayoutOf, ClampedRows, PutTable, Image.WidthsOf, BitSet, FitsWidth, CountsOf;
    if slot == 64 {
    } else {
      var counts := CountsOf(image.contents);
      CountsAre(image.contents);
      var rest := image.PutTables(schema, slot + 1) + post;
      var table := PutTable(image.contents[slot], image.WidthsOf(schema, slot));
      assert data[cursor..] == table + rest;
      if KnownTable(slot) {
        LayoutHolds(schema, image, data, slot, cursor, rest);
        var layout := LayoutOf(schema[slot], counts, image.heapSizes, 0, cursor).(rowCount := |image.contents[slot]|);
        LayoutsHold(schema, image, data, slot + 1, cursor + layout.ByteSize(), post, strict);
      } else {
        EmptyTable(image.contents[slot], image.WidthsOf(schema, slot));
        assert table + rest == rest;
        LayoutsHold(schema, image, data, slot + 1, cursor, post, strict);
      }
    }
  }

  lemma EmptyTable(rows: seq<Row>, ws: seq<nat>)
    requires rows == []
    ensures PutTable(rows, ws) == []
  {}

  // The whole stream.

  lemma HeaderParts(image: Image)
    requires |image.reserved| == 6
    ensures var h := image.PutHeader();
            h[6] == image.heapSizes && h[8..16] == image.valid && h[16..24] == image.declaredSorted
  {}

  lemma Tails(a: seq<byte>, b: seq<byte>, c: seq<byte>, d: seq<byte>)
    ensures var s := a + (b + (c + d));
            s[|a|..] == b + (c + d) && s[|s| - |d|..] == d && (c + d)[..|c|] == c && (c + d)[|c|..] == d
  {}

  lemma HeapBits(heapSizes: byte)
    ensures HeapBit(heapSizes, 0x40) <==> heapSizes / 0x40 % 2 == 1
    ensures HeapBit(heapSizes, 0x10) <==> heapSizes / 0x10 % 2 == 1
  {}

  /** Once the counts are read, what is left of the parse is the layout of the tables behind the extra word. */
  lemma BehindCounts(schema: Schema, data: seq<byte>, header: Header, s: seq<byte>, strict: bool,
                     counts: Counts, extra: u32, tables: seq<byte>)
    requires |s| <= |data| && |tables| <= |data| && !(HeapBit(header[6], 0x10) && strict)
    requires CountsFrom(s, header[8..16], 0, strict) == Ok((counts, (if HeapBit(header[6], 0x40) then Put32(extra) else []) + tables))
    ensures var start: nat := |data| - |tables|;
            var layouts := LayoutsFrom(schema, counts, header[6], |data|, 0, start, false, strict);
            ParseAfterHeader(schema, data, header, s, strict) ==
            if layouts.Err? then Err(layouts.error)
            else Ok(Tables(data, header[6], header[8..16], header[16..24],
                           if HeapBit(header[6], 0x40) then Some(extra) else None, layouts.value, NoFlags()))
  {
    hide CountsFrom, LayoutsFrom, HeapBit, Le32, Put32, NoFlags;
    Le32Put32(extra);
    if HeapBit(header[6], 0x40) {
      assert (Put32(extra) + tables)[..4] == Put32(extra);
    } else {
      assert [] + tables == tables;
    }
  }

  /** The tables start after the header, the counts and the extra word. */
  lemma AfterHeaderHolds(schema: Schema, image: Image, strict: bool)
    requires image.Coherent(schema) && (strict ==> image.Conforming())
    ensures var data := image.Put(schema);
            var parsed := ParseAfterHeader(schema, data, image.PutHeader(), data[24..], strict);
            && parsed.Ok?
            && parsed.value.data == data && parsed.value.heapSizes == image.heapSizes
            && parsed.value.valid == image.valid && parsed.value.declaredSorted == image.declaredSorted
            && parsed.value.extraData == (if image.heapSizes / 0x40 % 2 == 1 then Some(image.extra) else None)
            && forall t | 0 <= t < 64 && KnownTable(t) ::
                 Holds(parsed.value.layouts[t], image.WidthsOf(schema, t), image.contents[t], data)
  {
    hide PutCounts, CountsFrom, LayoutsFrom, HeapBit, Put32, Holds, BitSet, RowsFit, Image.WidthsOf, Image.PutTables, CountsOf, Image.PutHeader;
    hide ParseAfterHeader, NoFlags;
    var data := image.Put(schema);
    var counts := CountsOf(image.contents);
    CountsAre(image.contents);
    HeaderParts(image);
    var tables := image.PutTables(schema, 0) + image.trailing;
    var word := image.PutExtra();
    HeapBits(image.heapSizes);
    var countBytes := PutCounts(counts, image.valid, 0);
    Tails(image.PutHeader(), countBytes, word, tables);
    CountsReadBack(counts, image.valid, 0, word + tables, strict);
    assert counts[0..] == counts;
    BehindCounts(schema, data, image.PutHeader(), data[24..], strict, counts, image.extra, tables);
    var start: nat := |data| - |tables|;
    LayoutsHold(schema, image, data, 0, start, image.trailing, strict);
  }

  lemma CountsAre(contents: Contents)
    ensures forall t | 0 <= t < 64 :: CountsOf(contents)[t] == |contents[t]|
  {}

  /**
   * Table round trip: whatever the rows are, a stream written under the computed widths parses,
   * permissively always and strictly when its header conforms, and every column read of every row
   * gives the cell that was written.
   */
  lemma {:induction false} LayoutRoundTrip(schema: Schema, image: Image, strict: bool)
    requires image.Coherent(schema) && (strict ==> image.Conforming())
    ensures var parsed := ParseLayout(schema, image.Put(schema), strict);
            && parsed.Ok? && parsed.value.declaredSorted == image.declaredSorted
            && parsed.value.extraData == (if image.heapSizes / 0x40 % 2 == 1 then Some(image.extra) else None)
            && forall table: TableId :: TableReadsBack(schema, image, parsed.value, table)
  {
    hide PutCounts, CountsFrom, LayoutsFrom, HeapBit, Put32, Holds, BitSet, RowsFit, Image.WidthsOf, Image.PutTables, CountsOf, ParseAfterHeader, RawColumn;
    var data := image.Put(schema);
    assert data[..24] == image.PutHeader();
    AfterHeaderHolds(schema, image, strict);
    var t := ParseLayout(schema, data, strict).value;
    forall table: TableId ensures TableReadsBack(schema, image, t, table) {
      HeldReadsBack(schema, image, t, table);
    }
  }

  /** The table has its rows back, cell by cell. */
  ghost predicate TableReadsBack(schema: Schema, image: Image, t: Tables, table: TableId) {
    && RowCount(t, table) == |image.contents[table]|
    && forall i, c | 0 <= i < |image.contents[table]| && 0 <= c < |image.contents[table][i]| ::
         RawColumn(t, table, i + 1, c) == Ok(image.contents[table][i][c])
  }

  lemma HeldReadsBack(schema: Schema, image: Image, t: Tables, table: TableId)
    requires image.Coherent(schema)
    requires Holds(t.layouts[table], image.WidthsOf(schema, table), image.contents[table], t.data)
    ensures TableReadsBack(schema, image, t, table)
  {
    hide RawColumn, FitsWidth, PutTable, Sum, Widths;
    var ws, rows := image.WidthsOf(schema, table), image.contents[table];
    WidthsNarrow(schema[table], CountsOf(image.contents), image.heapSizes);
    forall i, c | 0 <= i < |rows| && 0 <= c < |rows[i]| ensures RawColumn(t, table, i + 1, c) == Ok(rows[i][c]) {
      HeldReads(t, table, ws, rows, i + 1, c);
    }
  }

  /** The cells written into one column of a table. */
  function WrittenColumn(rows: seq<Row>, c: nat): seq<u32> {
    seq(|rows|, i requires 0 <= i < |rows| => if c < |rows[i]| then rows[i][c] else 0)
  }

  lemma ColumnReadsBack(schema: Schema, image: Image, t: Tables, table: TableId, c: nat)
    requires image.Coherent(schema) && TableReadsBack(schema, image, t, table) && c < |schema[table]|
    ensures Column(t, table, c) == WrittenColumn(image.contents[table], c)
  {
    hide RawColumn, FitsWidth;
    var rows := image.contents[table];
    assert RowsFit(rows, image.WidthsOf(schema, table));
    forall i | 0 <= i < |rows| ensures Column(t, table, c)[i] == rows[i][c] {
      assert RawColumn(t, table, i + 1, c) == Ok(rows[i][c]);
      assert Column(t, table, c)[i + 1 - 1] == Cell(t, table, i + 1, c);
    }
  }

  /** The stream declares the table sorted, and the rows written are not. */
  ghost predicate WrittenLie(image: Image, table: TableId) {
    && SortKeyColumn(table).Some? && BitSet(image.declaredSorted, table)
    && Inverted(WrittenColumn(image.contents[table], SortKeyColumn(table).value))
  }

  /** A larger key stands before a smaller one; equal keys may follow each other. */
  ghost predicate Inverted(keys: seq<u32>) {
    exists i, j :: 0 <= i < j < |keys| && keys[i] > keys[j]
  }

  lemma InvertedMeans(keys: seq<u32>)
    ensures Inverted(keys) <==> !NonDecreasing(keys)
  {}

  lemma KeyColumnInside(schema: Schema, table: TableId)
    requires ValidSchema(schema)
    ensures SortKeyColumn(table).Some? ==> SortKeyColumn(table).value < |schema[table]|
  {}

  /**
   * The full parser on a written stream: permissive parsing always succeeds; strict parsing
   * succeeds, on a conforming header, exactly when no table the stream declares sorted was written
   * out of order. Either way the parsed columns are the written ones, and the tables marked sorted
   * are the keyed ones that were written in order.
   */
  lemma {:induction false} StreamRoundTrip(schema: Schema, image: Image, strict: bool)
    requires ValidSchema(schema) && image.Coherent(schema) && (strict ==> image.Conforming())
    ensures var parsed := ParseTables(schema, image.Put(schema), strict);
            && (parsed.Ok? <==> !strict || forall table: TableId :: !WrittenLie(image, table))
            && (parsed.Ok? ==> forall table: TableId, c: nat | c < |schema[table]| ::
                  Column(parsed.value, table, c) == WrittenColumn(image.contents[table], c))
            && (parsed.Ok? ==> forall table: TableId :: parsed.value.sorted[table] <==>
                  SortKeyColumn(table).Some? && !Inverted(WrittenColumn(image.contents[table], SortKeyColumn(table).value)))
  {
    hide ParseLayout, RowsFit, Image.Put, BitSet, NonDecreasing, SortKeyColumn, Column, ValidSchema, Inverted;
    LayoutRoundTrip(schema, image, strict);
    var t := ParseLayout(schema, image.Put(schema), strict).value;
    forall table: TableId, c: nat | c < |schema[table]|
      ensures Column(t, table, c) == WrittenColumn(image.contents[table], c)
    {
      ColumnReadsBack(schema, image, t, table, c);
    }
    forall table: TableId
      ensures Lies(t, table) <==> WrittenLie(image, table)
      ensures KeyOrdered(t, table) <==>
                SortKeyColumn(table).Some? && !Inverted(WrittenColumn(image.contents[table], SortKeyColumn(table).value))
    {
      KeyColumnInside(schema, table);
      if SortKeyColumn(table).Some? {
        InvertedMeans(WrittenColumn(image.contents[table], SortKeyColumn(table).value));
      }
    }
    var parsed := ParseTables(schema, image.Put(schema), strict);
    if parsed.Ok? {
      forall table: TableId, c: nat ensures Column(parsed.value, table, c) == Column(t, table, c) {
        SortedBitsIrrelevant(t, parsed.value.sorted, table, c);
      }
    }
  }

  // Every table contents has an image.

  /** A cell that refers to something the stream has: no larger than its column's target allows. */
  ghost predicate Meaningful(kind: ColumnKind, counts: Counts, heapSizes: byte, v: u32) {
    match kind
    case U16 => v < 0x1_0000
    case U32 => true
    case StringIndex => heapSizes % 2 == 1 || v < 0x1_0000
    case GuidIndex => heapSizes / 2 % 2 == 1 || v < 0x1_0000
    case BlobIndex => heapSizes / 4 % 2 == 1 || v < 0x1_0000
    case Rid(target) => v <= counts[target] || exists ptr: TableId :: (ptr, target) in Redirections() && v <= counts[ptr]
    case Coded(k) => exists token: Token :: Refers(k, counts, token, v)
  }

  /** A row id column reaches the rows of its target and of the pointer table into it, and no further. */
  lemma RidRowsMean(target: TableId, counts: Counts, v: nat)
    ensures v <= RidRows(target, counts) <==>
              v <= counts[target] || exists ptr: TableId :: (ptr, target) in Redirections() && v <= counts[ptr]
  {
    hide Redirections;
    forall ptr: TableId ensures PtrSource(target) == Some(ptr) <==> (ptr, target) in Redirections() {
      RedirectionsListed(ptr, target);
    }
  }

  /** The computed width of a column loses no meaningful cell. */
  lemma {:induction false} MeaningfulFits(kind: ColumnKind, counts: Counts, heapSizes: byte, v: u32)
    requires Meaningful(kind, counts, heapSizes, v)
    ensures FitsWidth(v, ColumnWidth(kind, counts, heapSizes))
  {
    hide RidRows, MaxRows, Refers;
    match kind
    case Rid(target) =>
      RidRowsMean(target, counts, v);
      RidWidthAdequate(target, v, counts, heapSizes);
    case Coded(k) =>
      var token: Token :| Refers(k, counts, token, v);
      CodedWidthAdequate(k, token, v, counts, heapSizes);
    case _ =>
  }

  /** A column of any kind is two bytes wide if and only if two bytes hold every meaningful cell. */
  lemma {:induction false} WidthExact(kind: ColumnKind, counts: Counts, heapSizes: byte)
    ensures ColumnWidth(kind, counts, heapSizes) == 2 <==>
              forall v: u32 | Meaningful(kind, counts, heapSizes, v) :: v < 0x1_0000
  {
    hide RidRows, MaxRows, Refers;
    if ColumnWidth(kind, counts, heapSizes) == 2 {
      forall v: u32 | Meaningful(kind, counts, heapSizes, v) ensures v < 0x1_0000 {
        MeaningfulFits(kind, counts, heapSizes, v);
      }
    } else {
      var v := WideCell(kind, counts, heapSizes);
    }
  }

  /** A wide column has a meaningful cell that two bytes do not hold. */
  lemma WideCell(kind: ColumnKind, counts: Counts, heapSizes: byte) returns (v: u32)
    requires ColumnWidth(kind, counts, heapSizes) != 2
    ensures Meaningful(kind, counts, heapSizes, v) && v >= 0x1_0000
  {
    hide MaxRows, Refers, TablesOf;
    v := 0x1_0000;
    if kind.Rid? {
      RidRowsMean(kind.target, counts, v);
    } else if kind.Coded? {
      var token, wide := WideReference(kind.kind, counts);
      v := wide;
    }
  }

  function ByteOf(flags: seq<bool>): (b: nat)
    decreases |flags|
  {
    if flags == [] then 0 else (if flags[0] then 1 else 0) + 2 * ByteOf(flags[1..])
  }

  lemma {:induction false} ByteOfBits(flags: seq<bool>, k: nat)
    requires k < |flags| <= 8
    ensures BitAt(ByteOf(flags), k) == flags[k]
    decreases |flags|
  {
    var rest := ByteOf(flags[1..]);
    assert ByteOf(flags) / 2 == rest && (ByteOf(flags) % 2 == 1) == flags[0];
    if k == 0 {
    } else {
      ByteOfBits(flags[1..], k - 1);
    }
  }

  lemma {:induction false} ByteOfSmall(flags: seq<bool>, limit: nat)
    requires limit == Power(|flags|)
    ensures ByteOf(flags) < limit
    decreases |flags|
  {
    if flags == [] {
    } else {
      ByteOfSmall(flags[1..], Power(|flags| - 1));
    }
  }

  function Power(n: nat): nat {
    if n == 0 then 1 else 2 * Power(n - 1)
  }

  lemma EightBits(flags: seq<bool>)
    requires |flags| == 8
    ensures ByteOf(flags) < 0x100
  {
    assert Power(4) == 16;
    assert Power(8) == 0x100;
    ByteOfSmall(flags, Power(8));
  }

  function WordOf(flags: Flags, i: nat): byte
    requires i < 8
  {
    EightBits(flags[8 * i..8 * i + 8]);
    ByteOf(flags[8 * i..8 * i + 8])
  }

  /** The 64-bit vector with these bits, little-endian. */
  function BitsOf(flags: Flags): Bits {
    seq(8, i requires 0 <= i < 8 => WordOf(flags, i))
  }

  lemma BitsOfSet(flags: Flags, i: nat)
    requires i < 64
    ensures BitSet(BitsOf(flags), i) == flags[i]
  {
    hide BitAt, ByteOf;
    var word := flags[8 * (i / 8)..8 * (i / 8) + 8];
    ByteOfBits(word, i % 8);
    assert word[i % 8] == flags[i];
  }

  /** Any contents of known tables whose cells are meaningful can be written, and read back strictly or not. */
  lemma EveryContentsHasAnImage(schema: Schema, contents: Contents, heapSizes: byte, declaredSorted: Bits) returns (image: Image)
    requires forall t | 0 <= t < 64 && contents[t] != [] :: KnownTable(t)
    requires forall t, i | 0 <= t < 64 && 0 <= i < |contents[t]| :: |contents[t][i]| == |schema[t]|
    requires forall t, i, c | 0 <= t < 64 && 0 <= i < |contents[t]| && 0 <= c < |schema[t]| ::
               Meaningful(schema[t][c], CountsOf(contents), heapSizes, contents[t][i][c])
    ensures image.contents == contents && image.heapSizes == heapSizes && image.declaredSorted == declaredSorted
    ensures image.Coherent(schema) && (image.Conforming() <==> heapSizes / 0x10 % 2 == 0)
    ensures forall t | 0 <= t < 64 :: BitSet(image.valid, t) <==> contents[t] != []
  {
    hide FitsWidth, Meaningful, BitSet, BitsOf, CountsOf, ColumnWidth;
    var flags: Flags := seq(64, t requires 0 <= t < 64 => contents[t] != []);
    image := Image([0, 0, 0, 0, 0, 0], heapSizes, 0, BitsOf(flags), declaredSorted, 0, contents, []);
    forall t | 0 <= t < 64 ensures BitSet(image.valid, t) == (contents[t] != []) {
      BitsOfSet(flags, t);
    }
    forall t, i, c | 0 <= t < 64 && 0 <= i < |contents[t]| && 0 <= c < |schema[t]|
      ensures FitsWidth(contents[t][i][c], image.WidthsOf(schema, t)[c])
    {
      MeaningfulFits(schema[t][c], CountsOf(contents), heapSizes, contents[t][i][c]);
    }
  }
}
