/**
 * Whole rows (`RowCursor`, `Tables::row` and `Tables::row_indirect` of src/tables/mod.rs, and the
 * decoders src/tables/rows.rs generates): the columns of a row read in order.
 */
module TableRows {
  import opened Wrappers
  import opened Bytes
  import opened Tokens
  import opened TableSchema
  import opened TableCoded
  import opened TableLayouts
  import opened TableSorted
  import opened TableRoundTrip

  /** A decoded column: a coded one becomes a token, any other stays a number. */
  datatype Field = Number(value: u32) | Reference(token: Token)

  function FieldOf(kind: ColumnKind, cell: u32): (f: Result<Field>)
    ensures f.Err? ==> f.error == Malformed
  {
    match kind
    case Coded(k) => var token :- Decode(k, cell); Ok(Reference(token))
    case _ => Ok(Number(cell))
  }

  /** The cell a field is written as: a reference in the column's coding, any other number as it is. */
  function CellOf(kind: ColumnKind, field: Field): Option<u32> {
    if kind.Coded? then (if field.Reference? then Encode(kind.kind, field.token) else None)
    else if field.Number? then Some(field.value)
    else None
  }

  /** A cell decodes to the field it was written from; a column that is not coded always decodes, to its number. */
  lemma {:induction false} FieldExact(kind: ColumnKind, cell: u32, field: Field)
    ensures CellOf(kind, field) == Some(cell) ==> FieldOf(kind, cell) == Ok(field)
    ensures FieldOf(kind, cell) == Ok(field) && (kind.Coded? ==> cell / TagSize(kind.kind) < RID_LIMIT) ==>
              CellOf(kind, field) == Some(cell)
    ensures !kind.Coded? ==> FieldOf(kind, cell).Ok?
  {
    hide Decode, Encode, TagSize;
    if kind.Coded? {
      if field.Reference? {
        DecodeEncode(kind.kind, field.token);
      }
      if Decode(kind.kind, cell).Ok? {
        EncodeDecode(kind.kind, cell);
      }
    }
  }

  /** The cells of one row, in column order. */
  function RowCells(schema: Schema, t: Tables, table: TableId, rid: nat): (cells: seq<u32>)
    ensures |cells| == |schema[table]|
    ensures forall c | 0 <= c < |cells| :: cells[c] == Cell(t, table, rid, c)
  {
    seq(|schema[table]|, c requires c >= 0 => Cell(t, table, rid, c))
  }

  ghost predicate FieldsOf(columns: seq<ColumnKind>, cells: seq<u32>, fields: seq<Field>)
    requires |cells| == |columns|
  {
    |fields| <= |columns| && forall c | 0 <= c < |fields| :: FieldOf(columns[c], cells[c]) == Ok(fields[c])
  }

  /** A row that decodes: it exists, and no coded column of it has an undefined tag. */
  ghost predicate RowDecodes(schema: Schema, t: Tables, table: TableId, rid: nat) {
    && 1 <= rid <= RowCount(t, table)
    && forall c | 0 <= c < |schema[table]| :: FieldOf(schema[table][c], Cell(t, table, rid, c)).Ok?
  }

  /** Hands out the cells of a row from left to right. */
  class RowCursor {
    const bytes: seq<byte>
    const layout: TableLayout
    var column: nat

    constructor (bytes: seq<byte>, layout: TableLayout)
      ensures this.bytes == bytes && this.layout == layout && column == 0
    {
      this.bytes := bytes;
      this.layout := layout;
      column := 0;
    }

    /** The next column as an unsigned value; past the last column nothing moves. */
    method Uint() returns (out: Result<u32>)
      modifies this
      ensures if old(column) >= |layout.widths| || old(column) >= |layout.offsets|
              then out == Err(Malformed) && column == old(column)
              else
                && column == old(column) + 1
                && out == match ReadUintAt(bytes, layout.offsets[old(column)], layout.widths[old(column)])
                          case Some(v) => Ok(v)
                          case None => Err(Truncated)
    {
      var index := column;
      if index >= |layout.widths| || index >= |layout.offsets| {
        return Err(Malformed);
      }
      column := column + 1;
      match ReadUintAt(bytes, layout.offsets[index], layout.widths[index])
      case Some(v) => return Ok(v);
      case None => return Err(Truncated);
    }
  }

  /** Reading a column off a cursor over the row's bytes gives its cell; on readable tables it succeeds. */
  lemma CursorReads(schema: Schema, t: Tables, table: TableId, rid: nat, column: nat)
    requires RowBytes(t, table, rid).Ok?
    ensures var layout := t.layouts[table];
            column < |layout.widths| && column < |layout.offsets| ==>
              var v := ReadUintAt(RowBytes(t, table, rid).value, layout.offsets[column], layout.widths[column]);
              v.Some? ==> v.value == Cell(t, table, rid, column)
    ensures Readable(schema, t) && column < |schema[table]| ==>
              var layout := t.layouts[table];
              && column < |layout.widths| && column < |layout.offsets|
              && ReadUintAt(RowBytes(t, table, rid).value, layout.offsets[column], layout.widths[column]).Some?
  {
    hide ReadUintAt;
    if Readable(schema, t) && column < |schema[table]| {
      assert RawColumn(t, table, rid, column).Ok?;
    }
  }

  lemma RowReads(schema: Schema, t: Tables, table: TableId, rid: nat)
    requires ValidSchema(schema) && Readable(schema, t)
    ensures RowBytes(t, table, rid).Ok? <==> 1 <= rid <= RowCount(t, table)
    ensures RowBytes(t, table, rid).Err? ==> RowBytes(t, table, rid).error == OutOfRange
  {
    hide ReadUintAt;
    assert RawColumn(t, table, rid, 0).Ok? <==> 1 <= rid <= RowCount(t, table);
  }

  /** Decodes one row: every column in order, or the first error. */
  method Row(schema: Schema, t: Tables, table: TableId, rid: nat) returns (out: Result<seq<Field>>)
    requires ValidSchema(schema)
    ensures out.Ok? ==> |out.value| == |schema[table]| && FieldsOf(schema[table], RowCells(schema, t, table, rid), out.value)
    ensures Readable(schema, t) ==>
              && (out.Ok? <==> RowDecodes(schema, t, table, rid))
              && (out.Err? ==> out.error == if 1 <= rid <= RowCount(t, table) then Malformed else OutOfRange)
  {
    if Readable(schema, t) {
      RowReads(schema, t, table, rid);
    }
    hide Cell, Readable, ReadUintAt, FieldOf, RowBytes;
    var bytes :- RowBytes(t, table, rid);
    var cursor := new RowCursor(bytes, t.layouts[table]);
    var columns := schema[table];
    var fields: seq<Field> := [];
    for c := 0 to |columns|
      invariant cursor.column == c == |fields|
      invariant FieldsOf(columns, RowCells(schema, t, table, rid), fields)
    {
      CursorReads(schema, t, table, rid, c);
      var cell :- cursor.Uint();
      var field :- FieldOf(columns[c], cell);
      fields := fields + [field];
    }
    return Ok(fields);
  }

  /** Decodes the physical row a logical row id stands for. */
  method RowIndirect(schema: Schema, t: Tables, table: TableId, rid: nat) returns (out: Result<seq<Field>>)
    requires ValidSchema(schema)
    ensures Readable(schema, t) ==>
              match ResolveIndirection(t, table, rid)
              case Err(e) => out == Err(e)
              case Ok(physical) =>
                && (out.Ok? <==> RowDecodes(schema, t, table, physical))
                && (out.Ok? ==> FieldsOf(schema[table], RowCells(schema, t, table, physical), out.value))
                && (out.Err? ==> out.error == if 1 <= physical <= RowCount(t, table) then Malformed else OutOfRange)
  {
    hide Readable, RowDecodes, FieldsOf;
    var physical :- ResolveIndirection(t, table, rid);
    out := Row(schema, t, table, physical);
  }

  /** Rows written from fields decode to those fields: what a stream holds is what `Row` returns. */
  lemma {:induction false} RowRoundTrip(schema: Schema, image: Image, strict: bool, table: TableId, rid: nat, fields: seq<Field>)
    requires image.Coherent(schema) && (strict ==> image.Conforming())
    requires 1 <= rid <= |image.contents[table]|
    requires |fields| == |schema[table]| == |image.contents[table][rid - 1]|
    requires forall c | 0 <= c < |fields| :: CellOf(schema[table][c], fields[c]) == Some(image.contents[table][rid - 1][c])
    ensures ParseLayout(schema, image.Put(schema), strict).Ok?
    ensures var t := ParseLayout(schema, image.Put(schema), strict).value;
            RowDecodes(schema, t, table, rid) && FieldsOf(schema[table], RowCells(schema, t, table, rid), fields)
  {
    LayoutRoundTrip(schema, image, strict);
    var t := ParseLayout(schema, image.Put(schema), strict).value;
    assert TableReadsBack(schema, image, t, table);
    hide ParseLayout, Image.Put, Image.Coherent, Image.Conforming, CellOf, FieldOf, RawColumn;
    forall c | 0 <= c < |fields| ensures FieldOf(schema[table][c], Cell(t, table, rid, c)) == Ok(fields[c]) {
      assert RawColumn(t, table, rid - 1 + 1, c) == Ok(image.contents[table][rid - 1][c]);
      FieldExact(schema[table][c], image.contents[table][rid - 1][c], fields[c]);
    }
  }
}
