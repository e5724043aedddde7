/**
 * Keyed lookups over the sorted tables (`rows_with_key`, `sort_key_for`, `rows_for_parent` and
 * `generic_params` of src/tables/lookup.rs): the binary search and the scan give one answer.
 */
module TableLookup {
  import opened Wrappers
  import opened Bytes
  import opened Tokens
  import opened Readers
  import opened TableSchema
  import opened TableCoded
  import opened TableLayouts
  import opened TableSorted

  predicate Ascending(rows: seq<nat>) {
    forall i, j | 0 <= i < j < |rows| :: rows[i] < rows[j]
  }

  /** `rows` is the ascending list of the 1-based rows whose cell is `key`. */
  ghost predicate ListsKey(cells: seq<u32>, key: u32, rows: seq<nat>) {
    && Ascending(rows)
    && forall rid: nat :: rid in rows <==> 1 <= rid <= |cells| && cells[rid - 1] == key
  }

  /** There is only one such list, so it does not matter which branch of the lookup builds it. */
  lemma {:induction false} AscendingUnique(a: seq<nat>, b: seq<nat>)
    requires Ascending(a) && Ascending(b)
    requires forall x :: x in a <==> x in b
    ensures a == b
    decreases |a|
  {
    if a == [] {
      HeadIn(b);
    } else {
      assert a[|a| - 1] in b;
      var a', b' := a[..|a| - 1], b[..|b| - 1];
      assert a[|a| - 1] == b[|b| - 1] by {
        assert b[|b| - 1] in a;
      }
      assert a == a' + [a[|a| - 1]] && b == b' + [b[|b| - 1]];
      forall x ensures x in a' <==> x in b' {
        assert x in a' <==> x in a && x != a[|a| - 1];
        assert x in b' <==> x in b && x != b[|b| - 1];
      }
      AscendingUnique(a', b');
    }
  }

  lemma HeadIn<T>(s: seq<T>)
    ensures s != [] ==> s[0] in s
  {}

  lemma ListsKeyUnique(cells: seq<u32>, key: u32, a: seq<nat>, b: seq<nat>)
    requires ListsKey(cells, key, a) && ListsKey(cells, key, b)
    ensures a == b
  {
    forall x: nat ensures x in a <==> x in b {}
    assert forall x | x in a :: x >= 0;
    assert forall x | x in b :: x >= 0;
    AscendingUnique(a, b);
  }

  /** The first row with a key: what `first_row_with_key` picks from the list. */
  function FirstMatch(cells: seq<u32>, key: u32): (r: Option<nat>)
    ensures r.Some? ==> 1 <= r.value <= |cells| && cells[r.value - 1] == key && key !in cells[..r.value - 1]
    ensures r.None? ==> key !in cells
  {
    if cells == [] then None
    else if cells[0] == key then Some(1)
    else
      match FirstMatch(cells[1..], key)
      case None => None
      case Some(n) =>
        assert cells[..n] == [cells[0]] + cells[1..][..n - 1];
        Some(n + 1)
  }

  lemma NoneEarlier(cells: seq<u32>, key: u32, n: nat)
    requires 1 <= n <= |cells| && key !in cells[..n - 1]
    ensures forall i | 0 <= i < n - 1 :: cells[i] != key
  {
    forall i | 0 <= i < n - 1 ensures cells[i] != key {
      assert cells[i] == cells[..n - 1][i];
    }
  }

  lemma FirstOfList(cells: seq<u32>, key: u32, rows: seq<nat>)
    requires ListsKey(cells, key, rows)
    ensures FirstMatch(cells, key) == if rows == [] then None else Some(rows[0])
  {
    HeadIn(rows);
    match FirstMatch(cells, key)
    case None =>
    case Some(n) =>
      assert n in rows;
      NoneEarlier(cells, key, n);
  }

  // The two branches of the search.

  /** Exactly the cells before row `lo` are below `key`. */
  ghost predicate LowerBoundAt(cells: seq<u32>, key: u32, lo: nat) {
    1 <= lo <= |cells| + 1 && forall i | 0 <= i < |cells| :: cells[i] < key <==> i < lo - 1
  }

  /** First row whose cell is at least `key`, by halving. */
  method LowerBound(schema: Schema, t: Tables, table: TableId, column: nat, key: u32) returns (out: Result<nat>)
    requires NonDecreasing(Column(t, table, column))
    ensures out.Ok? ==> LowerBoundAt(Column(t, table, column), key, out.value)
    ensures Readable(schema, t) && column < |schema[table]| ==> out.Ok?
  {
    hide RawColumn, Cell, Readable, Column;
    ghost var cells := Column(t, table, column);
    var count := RowCount(t, table);
    var lo, hi := 1, count + 1;
    while lo < hi
      invariant 1 <= lo <= hi <= count + 1
      invariant forall i | 0 <= i < lo - 1 :: cells[i] < key
      invariant forall i | hi - 1 <= i < count :: key <= cells[i]
    {
      var mid := lo + (hi - lo) / 2;
      ReadCell(schema, t, table, mid, column);
      var cell :- RawColumn(t, table, mid, column);
      if cell < key {
        lo := mid + 1;
      } else {
        hi := mid;
      }
    }
    return Ok(lo);
  }

  /** The run of rows equal to `key` that starts at the lower bound. */
  method SearchRun(schema: Schema, t: Tables, table: TableId, column: nat, key: u32) returns (out: Result<seq<nat>>)
    requires NonDecreasing(Column(t, table, column))
    ensures out.Ok? ==> ListsKey(Column(t, table, column), key, out.value)
    ensures Readable(schema, t) && column < |schema[table]| ==> out.Ok?
  {
    hide RawColumn, Cell, Readable, Column;
    ghost var cells := Column(t, table, column);
    var count := RowCount(t, table);
    var lo :- LowerBound(schema, t, table, column, key);
    var rid := lo;
    var rows: seq<nat> := [];
    while rid <= count
      invariant lo <= rid <= count + 1
      invariant |rows| == rid - lo && forall i | 0 <= i < |rows| :: rows[i] == lo + i
      invariant forall i | lo - 1 <= i < rid - 1 :: cells[i] == key
    {
      ReadCell(schema, t, table, rid, column);
      var cell :- RawColumn(t, table, rid, column);
      if cell != key {
        break;
      }
      rows := rows + [rid];
      rid := rid + 1;
    }
    RunLists(cells, key, lo, rid, rows);
    return Ok(rows);
  }

  lemma RunLists(cells: seq<u32>, key: u32, lo: nat, end: nat, rows: seq<nat>)
    requires NonDecreasing(cells) && LowerBoundAt(cells, key, lo) && lo <= end <= |cells| + 1
    requires forall i | lo - 1 <= i < end - 1 :: cells[i] == key
    requires end <= |cells| ==> cells[end - 1] != key
    requires |rows| == end - lo && forall i | 0 <= i < |rows| :: rows[i] == lo + i
    ensures ListsKey(cells, key, rows)
  {
    forall rid: nat ensures rid in rows <==> 1 <= rid <= |cells| && cells[rid - 1] == key {
      if lo <= rid < end {
        assert rows[rid - lo] == rid;
      } else if end <= rid <= |cells| {
        assert cells[end - 1] <= cells[rid - 1];
      }
    }
  }

  method ScanRows(schema: Schema, t: Tables, table: TableId, column: nat, key: u32) returns (out: Result<seq<nat>>)
    ensures out.Ok? ==> ListsKey(Column(t, table, column), key, out.value)
    ensures Readable(schema, t) && column < |schema[table]| ==> out.Ok?
  {
    hide RawColumn, Cell, Readable, Column;
    ghost var cells := Column(t, table, column);
    var count := RowCount(t, table);
    var rows: seq<nat> := [];
    for rid := 1 to count + 1
      invariant ListsKey(cells[..rid - 1], key, rows)
    {
      ReadCell(schema, t, table, rid, column);
      var cell :- RawColumn(t, table, rid, column);
      ListsNext(cells[..rid - 1], cell, key, rows);
      if cell == key {
        rows := rows + [rid];
      }
      assert cells[..rid] == cells[..rid - 1] + [cells[rid - 1]];
    }
    assert cells[..count] == cells;
    return Ok(rows);
  }

  lemma ListsNext(cells: seq<u32>, cell: u32, key: u32, rows: seq<nat>)
    requires ListsKey(cells, key, rows)
    ensures ListsKey(cells + [cell], key, if cell == key then rows + [|cells| + 1] else rows)
  {
    var rid := |cells| + 1;
    forall i | 0 <= i < |rows| ensures rows[i] < rid {
      assert rows[i] in rows;
    }
  }

  /** Exactly the ascending list of the matching rows, on a sorted table and on an unsorted one. */
  method RowsWithKey(schema: Schema, t: Tables, table: TableId, key: u32) returns (out: Result<seq<nat>>)
    requires ValidSchema(schema) && Honest(t)
    ensures match SortKeyColumn(table)
            case None => out == Err(Unsupported)
            case Some(column) =>
              && (Readable(schema, t) ==> out.Ok?)
              && (out.Ok? ==> ListsKey(Column(t, table, column), key, out.value))
  {
    hide Column, NonDecreasing, Readable, SortKeyColumn;
    if SortKeyColumn(table).None? {
      return Err(Unsupported);
    }
    var column := SortKeyColumn(table).value;
    if RowCount(t, table) == 0 {
      return Ok([]);
    }
    if t.sorted[table] {
      assert KeyOrdered(t, table);
      out := SearchRun(schema, t, table, column, key);
    } else {
      out := ScanRows(schema, t, table, column, key);
    }
  }

  method FirstRowWithKey(schema: Schema, t: Tables, table: TableId, key: u32) returns (out: Result<Option<nat>>)
    requires ValidSchema(schema) && Honest(t)
    ensures match SortKeyColumn(table)
            case None => out == Err(Unsupported)
            case Some(column) =>
              && (Readable(schema, t) ==> out.Ok?)
              && (out.Ok? ==> out.value == FirstMatch(Column(t, table, column), key))
  {
    hide Column, Readable, Honest, ListsKey, FirstMatch, SortKeyColumn, ValidSchema;
    var rows :- RowsWithKey(schema, t, table, key);
    FirstOfList(Column(t, table, SortKeyColumn(table).value), key, rows);
    return Ok(if rows == [] then None else Some(rows[0]));
  }

  // Rows of a parent token.

  function SortKeyFor(table: TableId, parent: Token): Option<u32> {
    match SortKeyCoded(table)
    case Some(kind) => Encode(kind, parent)
    case None => Some(RidOf(parent))
  }

  /**
   * A key cell names this parent: it decodes to the token and its row id survives the 24 bits of a
   * token. Where the key column is not coded the token's table is not looked at.
   */
  predicate Names(table: TableId, cell: u32, parent: Token) {
    match SortKeyCoded(table)
    case Some(kind) => Decode(kind, cell) == Ok(parent) && cell / TagSize(kind) < RID_LIMIT
    case None => cell == RidOf(parent)
  }

  /** The raw key of a parent is the one value that names it; without a key no cell does. */
  lemma {:induction false} SortKeyNames(table: TableId, cell: u32, parent: Token)
    ensures SortKeyFor(table, parent) == Some(cell) <==> Names(table, cell, parent)
  {
    hide Encode, Decode;
    match SortKeyCoded(table)
    case None =>
    case Some(kind) =>
      DecodeEncode(kind, parent);
      if Decode(kind, cell).Ok? {
        EncodeDecode(kind, cell);
      }
  }

  /** Exactly the rows whose key cell names the parent, ascending. */
  ghost predicate ListsNamed(table: TableId, cells: seq<u32>, parent: Token, rows: seq<nat>) {
    && Ascending(rows)
    && forall rid: nat :: rid in rows <==> 1 <= rid <= |cells| && Names(table, cells[rid - 1], parent)
  }

  /**
   * Decoding to the parent is not enough: of the rows whose key decodes to it, the lookup's list
   * leaves out exactly those whose row id needs more than 24 bits.
   */
  lemma WideKeyMissed(table: TableId, kind: CodedIndex, cells: seq<u32>, parent: Token, rows: seq<nat>, rid: nat)
    requires SortKeyCoded(table) == Some(kind) && ListsNamed(table, cells, parent, rows)
    requires 1 <= rid <= |cells| && Decode(kind, cells[rid - 1]) == Ok(parent)
    ensures rid !in rows <==> cells[rid - 1] / TagSize(kind) >= RID_LIMIT
  {
    hide Decode;
    assert rid in rows <==> Names(table, cells[rid - 1], parent);
  }

  /** Every kind has such cells: a parent's key plus 2^24 rows decodes to the same parent. */
  lemma {:induction false} WideTwin(kind: CodedIndex, parent: Token)
    requires Encode(kind, parent).Some?
    ensures var cell := Encode(kind, parent).value + RID_LIMIT * TagSize(kind);
            cell <= 0xFFFF_FFFF && Decode(kind, cell) == Ok(parent) && cell / TagSize(kind) >= RID_LIMIT
  {
    hide TablesOf, TagOf, TableOf, RidOf, NewToken;
    var size, key := TagSize(kind), Encode(kind, parent).value;
    DecodeEncode(kind, parent);
    EncodeDecode(kind, key);
    TwinParts(key, size);
    TwinToken(TablesOf(kind)[key % size].value, key / size);
  }

  lemma TwinParts(key: nat, size: nat)
    requires size == 2 || size == 4 || size == 8 || size == 32
    requires key / size < RID_LIMIT
    ensures var cell := key + RID_LIMIT * size;
            cell <= 0xFFFF_FFFF && cell % size == key % size && cell / size == key / size + RID_LIMIT
  {
    ModUnique(key + RID_LIMIT * size, size, key / size + RID_LIMIT, key % size);
  }

  lemma TwinToken(table: TableId, rid: nat)
    requires rid < RID_LIMIT
    ensures NewToken(table, rid + RID_LIMIT) == NewToken(table, rid)
  {}

  /** The rows a parent owns; no key means no row. */
  method RowsForParent(schema: Schema, t: Tables, table: TableId, parent: Token) returns (out: Result<seq<nat>>)
    requires ValidSchema(schema) && Honest(t)
    ensures match SortKeyColumn(table)
            case None => out == Err(Unsupported)
            case Some(column) =>
              && (Readable(schema, t) ==> out.Ok?)
              && (out.Ok? ==> ListsNamed(table, Column(t, table, column), parent, out.value))
  {
    hide Column, Readable, Honest, Names, ValidSchema, Encode;
    CodedHasColumn(table);
    forall cell: u32 ensures SortKeyFor(table, parent) == Some(cell) <==> Names(table, cell, parent) {
      SortKeyNames(table, cell, parent);
    }
    hide SortKeyColumn, SortKeyCoded, SortKeyFor;
    match SortKeyFor(table, parent)
    case Some(key) =>
      assert forall cell: u32 :: Names(table, cell, parent) <==> cell == key;
      out := RowsWithKey(schema, t, table, key);
    case None =>
      return Ok([]);
  }

  lemma CodedHasColumn(table: TableId)
    ensures SortKeyColumn(table).None? ==> forall parent :: SortKeyFor(table, parent).Some?
  {}

  // Generic parameters, in declaration order.

  predicate Before(a: (u32, nat), b: (u32, nat)) {
    a.0 < b.0 || (a.0 == b.0 && a.1 < b.1)
  }

  predicate InOrder(s: seq<(u32, nat)>) {
    forall i, j | 0 <= i < j < |s| :: Before(s[i], s[j])
  }

  function Insert(x: (u32, nat), s: seq<(u32, nat)>): seq<(u32, nat)> {
    if s == [] || Before(x, s[0]) then [x] + s else [s[0]] + Insert(x, s[1..])
  }

  /** The library sort of (Number, row id) pairs. */
  function SortPairs(s: seq<(u32, nat)>): seq<(u32, nat)> {
    if s == [] then [] else Insert(s[0], SortPairs(s[1..]))
  }

  lemma {:induction false} InsertKeepsOrder(x: (u32, nat), s: seq<(u32, nat)>)
    requires InOrder(s) && x !in s
    ensures InOrder(Insert(x, s)) && |Insert(x, s)| == |s| + 1
    ensures forall y :: y in Insert(x, s) <==> y == x || y in s
  {
    if s != [] && !Before(x, s[0]) {
      InsertKeepsOrder(x, s[1..]);
      assert s == [s[0]] + s[1..];
      assert Before(s[0], x);
      var rest := Insert(x, s[1..]);
      forall i | 0 <= i < |rest| ensures Before(s[0], rest[i]) {
        assert rest[i] in rest;
      }
    }
  }

  lemma {:induction false} SortPairsSorts(s: seq<(u32, nat)>)
    requires forall i, j | 0 <= i < j < |s| :: s[i] != s[j]
    ensures InOrder(SortPairs(s)) && |SortPairs(s)| == |s|
    ensures forall y :: y in SortPairs(s) <==> y in s
  {
    if s == [] {
    } else {
      SortPairsSorts(s[1..]);
      assert s == [s[0]] + s[1..];
      assert s[0] !in s[1..];
      InsertKeepsOrder(s[0], SortPairs(s[1..]));
    }
  }

  /** The rows of one owner, strictly ordered by number and then row id. */
  ghost predicate InDeclarationOrder(t: Tables, owner: Token, rows: seq<nat>) {
    && (forall rid: nat :: rid in rows <==>
          1 <= rid <= RowCount(t, GENERIC_PARAM) && Names(GENERIC_PARAM, Column(t, GENERIC_PARAM, 2)[rid - 1], owner))
    && (forall i, j | 0 <= i < j < |rows| ::
          || Cell(t, 0x2A, rows[i], 0) < Cell(t, 0x2A, rows[j], 0)
          || (Cell(t, 0x2A, rows[i], 0) == Cell(t, 0x2A, rows[j], 0) && rows[i] < rows[j]))
  }

  function Numbered(t: Tables, rid: nat): (u32, nat) {
    (Cell(t, GENERIC_PARAM, rid, 0), rid)
  }

  /**
   * The generic parameters of a type or method: exactly its rows, in the order of their Number
   * cells, whatever order the rows are stored in.
   */
  method GenericParams(schema: Schema, t: Tables, owner: Token) returns (out: Result<seq<nat>>)
    requires ValidSchema(schema) && Honest(t)
    ensures Readable(schema, t) ==> out.Ok?
    ensures out.Ok? ==> InDeclarationOrder(t, owner, out.value)
  {
    hide RawColumn, Cell, Column, Names, NonDecreasing, Before, SortPairs, Readable, Honest;
    var rids :- RowsForParent(schema, t, GENERIC_PARAM, owner);
    var keyed: seq<(u32, nat)> := [];
    for i := 0 to |rids|
      invariant |keyed| == i
      invariant forall j | 0 <= j < i :: keyed[j] == Numbered(t, rids[j])
    {
      assert rids[i] in rids;
      ReadCell(schema, t, GENERIC_PARAM, rids[i], 0);
      var number :- RawColumn(t, GENERIC_PARAM, rids[i], 0);
      keyed := keyed + [(number, rids[i])];
    }
    SortPairsSorts(keyed);
    SortedOrder(t, owner, rids, keyed, SortPairs(keyed));
    return Ok(Seconds(SortPairs(keyed)));
  }

  lemma SortedOrder(t: Tables, owner: Token, rids: seq<nat>, keyed: seq<(u32, nat)>, sorted: seq<(u32, nat)>)
    requires ListsNamed(GENERIC_PARAM, Column(t, GENERIC_PARAM, 2), owner, rids)
    requires |keyed| == |rids| && forall j | 0 <= j < |rids| :: keyed[j] == Numbered(t, rids[j])
    requires InOrder(sorted) && forall y :: y in sorted <==> y in keyed
    ensures InDeclarationOrder(t, owner, Seconds(sorted))
  {
    hide Cell, Column, Names;
    var rows := Seconds(sorted);
    forall i | 0 <= i < |sorted| ensures sorted[i] == Numbered(t, sorted[i].1) && sorted[i].1 in rids && rows[i] == sorted[i].1 {
      assert sorted[i] in keyed;
    }
    forall i, j | 0 <= i < j < |sorted| ensures Before(Numbered(t, rows[i]), Numbered(t, rows[j])) {
      assert Before(sorted[i], sorted[j]);
    }
    forall rid: nat ensures rid in rows <==> rid in rids {
      if rid in rids {
        var j :| 0 <= j < |rids| && rids[j] == rid;
        assert keyed[j] in sorted;
        var i :| 0 <= i < |sorted| && sorted[i] == keyed[j];
        assert rows[i] == rid;
      }
    }
  }

  function Seconds(s: seq<(u32, nat)>): seq<nat> {
    seq(|s|, i requires 0 <= i < |s| => s[i].1)
  }
}
