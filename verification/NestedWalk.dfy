/**
 * The walk outwards through `NestedClass` that names a nested type (`type_def` of src/display.rs,
 * `enclosing_type` and `nested_types` of src/tables/lookup.rs).
 */
module NestedWalk {
  import opened Wrappers
  import opened Bytes
  import opened Tokens
  import opened TableSchema
  import opened TableLayouts
  import opened TableSorted
  import opened TableLookup
  import opened TableRows

  /** The two columns of `NestedClass`: each nested type, and the type around it. */
  datatype Nesting = Nesting(nested: seq<u32>, around: seq<u32>)

  predicate Paired(n: Nesting) {
    |n.nested| == |n.around|
  }

  function NestingOf(t: Tables): (n: Nesting)
    ensures Paired(n) && |n.nested| == RowCount(t, NESTED_CLASS)
  {
    Nesting(Column(t, NESTED_CLASS, 0), Column(t, NESTED_CLASS, 1))
  }

  /** The enclosing type: the first row of the nested type tells. */
  function Enclosing(n: Nesting, x: u32): Option<u32>
    requires Paired(n)
  {
    match FirstMatch(n.nested, x)
    case Some(rid) => Some(n.around[rid - 1])
    case None => None
  }

  /** One step outwards; a null or self reference ends the walk. */
  function Outer(n: Nesting, x: u32): Option<u32>
    requires Paired(n)
  {
    match Enclosing(n, x)
    case Some(y) => if y == 0 || y == x then None else Some(y)
    case None => None
  }

  /** On readable tables the two columns are columns 0 and 1 of table 0x29. */
  lemma NestingReads(schema: Schema, t: Tables, rid: nat)
    requires ValidSchema(schema) && Readable(schema, t) && 1 <= rid <= RowCount(t, 0x29)
    ensures RawColumn(t, 0x29, rid, 0) == Ok(NestingOf(t).nested[rid - 1])
    ensures RawColumn(t, 0x29, rid, 1) == Ok(NestingOf(t).around[rid - 1])
  {
    hide RawColumn, ValidSchema, Readable;
    ReadCell(schema, t, NESTED_CLASS, rid, 0);
    ReadCell(schema, t, NESTED_CLASS, rid, 1);
    CellsRead(schema, t, rid);
  }

  lemma CellsRead(schema: Schema, t: Tables, rid: nat)
    requires ValidSchema(schema) && Readable(schema, t) && 1 <= rid <= RowCount(t, NESTED_CLASS)
    ensures RawColumn(t, NESTED_CLASS, rid, 0).Ok? && RawColumn(t, NESTED_CLASS, rid, 1).Ok?
  {
    hide RawColumn;
  }

  /** One step outwards leads where the first row of the type says, unless that is no type or the type itself. */
  lemma {:induction false} OuterMeans(n: Nesting, x: u32, y: u32)
    requires Paired(n)
    ensures Outer(n, x) == Some(y) <==>
              && y != 0 && y != x
              && exists i :: 0 <= i < |n.nested| && n.nested[i] == x && x !in n.nested[..i] && n.around[i] == y
  {
    hide FirstMatch;
    match FirstMatch(n.nested, x)
    case Some(rid) =>
      forall i | 0 <= i < |n.nested| && n.nested[i] == x && x !in n.nested[..i] ensures i == rid - 1 {
        FirstOnly(n.nested, x, i, rid - 1);
      }
    case None =>
  }

  lemma FirstOnly(cells: seq<u32>, x: u32, i: nat, j: nat)
    requires i < |cells| && cells[i] == x && x !in cells[..i]
    requires j < |cells| && cells[j] == x && x !in cells[..j]
    ensures i == j
  {
    if i < j {
      Earlier(cells, i, j);
    } else if j < i {
      Earlier(cells, j, i);
    }
  }

  lemma Earlier(cells: seq<u32>, i: nat, j: nat)
    requires i < j <= |cells|
    ensures cells[i] in cells[..j]
  {
    assert cells[..j][i] == cells[i];
  }

  /** The type `k` steps outwards, if the chain is that long. */
  function Ancestor(n: Nesting, x: u32, k: nat): Option<u32>
    requires Paired(n)
  {
    if k == 0 then Some(x)
    else
      match Ancestor(n, x, k - 1)
      case Some(y) => Outer(n, y)
      case None => None
  }

  /** The chain outwards from `x` ends: it does not run into a cycle. */
  ghost predicate Ends(n: Nesting, x: u32)
    requires Paired(n)
  {
    exists k: nat :: Ancestor(n, x, k).None?
  }

  lemma {:induction false} AncestorShift(n: Nesting, x: u32, i: nat, k: nat)
    requires Paired(n) && Ancestor(n, x, i).Some?
    ensures Ancestor(n, x, i + k) == Ancestor(n, Ancestor(n, x, i).value, k)
  {
    hide Outer;
    if k == 0 {
    } else {
      AncestorShift(n, x, i, k - 1);
    }
  }

  lemma {:induction false} EndStays(n: Nesting, x: u32, i: nat, k: nat)
    requires Paired(n) && Ancestor(n, x, i).None? && i <= k
    ensures Ancestor(n, x, k).None?
  {
    hide Outer;
    if i < k {
      EndStays(n, x, i, k - 1);
    }
  }

  /** A chain that comes back to a type it has met never ends. */
  lemma {:induction false} CycleNeverEnds(n: Nesting, x: u32, i: nat, j: nat, k: nat)
    requires Paired(n) && i < j && Ancestor(n, x, i).Some? && Ancestor(n, x, i) == Ancestor(n, x, j)
    ensures Ancestor(n, x, k).Some?
    decreases k
  {
    hide Ancestor;
    if k < j {
      if Ancestor(n, x, k).None? {
        EndStays(n, x, k, j);
      }
    } else {
      AncestorShift(n, x, i, k - j);
      AncestorShift(n, x, j, k - j);
      CycleNeverEnds(n, x, i, j, i + (k - j));
    }
  }

  /** More than `m` values among 1..=m repeat one. */
  lemma {:induction false} Pigeonhole(s: seq<nat>, m: nat) returns (i: nat, j: nat)
    requires |s| > m && forall k | 0 <= k < |s| :: 1 <= s[k] <= m
    ensures i < j < |s| && s[i] == s[j]
    decreases m
  {
    if k, l :| 0 <= k < l < |s| && s[k] == m && s[l] == m {
      i, j := k, l;
    } else if k :| 0 <= k < |s| && s[k] == m {
      var i', j' := Pigeonhole(s[..k] + s[k + 1..], m - 1);
      i, j := if i' < k then i' else i' + 1, if j' < k then j' else j' + 1;
    } else {
      assert 1 <= s[0] <= m;
      i, j := Pigeonhole(s, m - 1);
    }
  }

  /** A chain that ends does so within one step of the row count: its types are distinct keys. */
  lemma {:induction false} EndsWithinRows(n: Nesting, x: u32)
    requires Paired(n)
    ensures Ends(n, x) <==> Ancestor(n, x, |n.nested| + 1).None?
  {
    hide Ancestor, FirstMatch;
    if Ends(n, x) && Ancestor(n, x, |n.nested| + 1).Some? {
      var m := |n.nested|;
      var rows: seq<nat> := KeyRows(n, x, m + 1);
      var i, j := Pigeonhole(rows, m);
      var k :| Ancestor(n, x, k).None?;
      CycleNeverEnds(n, x, i, j, k);
    }
  }

  /** The rows the first `len` types of a long enough chain are keyed by. */
  lemma {:induction false} KeyRows(n: Nesting, x: u32, len: nat) returns (rows: seq<nat>)
    requires Paired(n) && Ancestor(n, x, len).Some?
    ensures |rows| == len
    ensures forall i | 0 <= i < len ::
              1 <= rows[i] <= |n.nested| && Ancestor(n, x, i) == Some(n.nested[rows[i] - 1])
  {
    hide FirstMatch;
    if len == 0 {
      rows := [];
    } else {
      rows := KeyRows(n, x, len - 1);
      rows := rows + [FirstMatch(n.nested, Ancestor(n, x, len - 1).value).value];
    }
  }

  // The walk.

  /** The types around `x`, outermost first, as far as `steps` steps; every one must decode. */
  ghost function WalkOut(schema: Schema, t: Tables, x: u32, steps: nat): Result<seq<u32>>
    decreases steps
  {
    if steps == 0 then Ok([])
    else
      match Outer(NestingOf(t), x)
      case None => Ok([])
      case Some(y) =>
        if !RowDecodes(schema, t, TYPE_DEF, y) then Err(if 1 <= y <= RowCount(t, TYPE_DEF) then Malformed else OutOfRange)
        else
          var rest :- WalkOut(schema, t, y, steps - 1);
          Ok(rest + [y])
  }

  /** A type and the types around it, outermost first: the parts of its qualified name. */
  ghost function TypePath(schema: Schema, t: Tables, x: u32): Result<seq<u32>> {
    if !RowDecodes(schema, t, TYPE_DEF, x) then Err(if 1 <= x <= RowCount(t, TYPE_DEF) then Malformed else OutOfRange)
    else
      var outers :- WalkOut(schema, t, x, RowCount(t, NESTED_CLASS));
      Ok(outers + [x])
  }

  lemma {:induction false} WalkLists(schema: Schema, t: Tables, x: u32, steps: nat)
    requires WalkOut(schema, t, x, steps).Ok?
    ensures var n, outers := NestingOf(t), WalkOut(schema, t, x, steps).value;
            && |outers| <= steps
            && (forall k | 0 < k <= |outers| :: Ancestor(n, x, k) == Some(outers[|outers| - k]))
            && (|outers| < steps ==> Ancestor(n, x, |outers| + 1).None?)
    decreases steps
  {
    hide Outer, NestingOf, RowDecodes;
    var n, outers := NestingOf(t), WalkOut(schema, t, x, steps).value;
    assert Ancestor(n, x, 1) == Outer(n, x);
    if steps > 0 && Outer(n, x).Some? {
      var y := Outer(n, x).value;
      WalkLists(schema, t, y, steps - 1);
      var rest := WalkOut(schema, t, y, steps - 1).value;
      forall k | 0 < k <= |outers| ensures Ancestor(n, x, k) == Some(outers[|outers| - k]) {
        AncestorShift(n, x, 1, k - 1);
        if k > 1 {
          assert rest[|rest| - (k - 1)] == outers[|outers| - k];
        }
      }
      AncestorShift(n, x, 1, |rest| + 1);
    }
  }

  /** The type `k` steps outwards decodes, if there is one. */
  ghost predicate Legible(schema: Schema, t: Tables, x: u32, k: nat) {
    match Ancestor(NestingOf(t), x, k)
    case Some(y) => RowDecodes(schema, t, TYPE_DEF, y)
    case None => true
  }

  /** The walk gets through exactly when every type it steps onto decodes. */
  lemma {:induction false} WalkReadable(schema: Schema, t: Tables, x: u32, steps: nat)
    ensures WalkOut(schema, t, x, steps).Ok? <==> forall k | 0 < k <= steps :: Legible(schema, t, x, k)
    decreases steps
  {
    hide Outer, NestingOf, RowDecodes;
    var n := NestingOf(t);
    assert Ancestor(n, x, 1) == Outer(n, x);
    if steps == 0 {
    } else {
      if Outer(n, x).None? {
        forall k | 0 < k <= steps ensures Legible(schema, t, x, k) {
          EndStays(n, x, 1, k);
        }
      } else {
        var y := Outer(n, x).value;
        WalkReadable(schema, t, y, steps - 1);
        forall k | 1 < k <= steps ensures Legible(schema, t, x, k) == Legible(schema, t, y, k - 1) {
          AncestorShift(n, x, 1, k - 1);
        }
        assert Legible(schema, t, x, 1) == RowDecodes(schema, t, TYPE_DEF, y);
        LegibleShift(schema, t, x, y, steps);
      }
    }
  }

  lemma LegibleShift(schema: Schema, t: Tables, x: u32, y: u32, steps: nat)
    requires forall k | 1 < k <= steps :: Legible(schema, t, x, k) == Legible(schema, t, y, k - 1)
    ensures (forall k | 1 < k <= steps :: Legible(schema, t, x, k)) <==> (forall k | 0 < k <= steps - 1 :: Legible(schema, t, y, k))
  {
    hide Legible;
    forall k | 0 < k <= steps - 1 ensures Legible(schema, t, y, k) == Legible(schema, t, x, k + 1) {
      assert Legible(schema, t, x, k + 1) == Legible(schema, t, y, k + 1 - 1);
    }
  }

  /**
   * The name is complete: it lists the chain of enclosing types in order, and its outermost part
   * has no type around it if and only if the chain ends. On a cycle it stops at the row count.
   */
  lemma {:induction false} NameComplete(schema: Schema, t: Tables, x: u32)
    requires TypePath(schema, t, x).Ok?
    ensures var n, path := NestingOf(t), TypePath(schema, t, x).value;
            && 1 <= |path| <= |n.nested| + 1
            && (forall k | 0 <= k < |path| :: Ancestor(n, x, k) == Some(path[|path| - 1 - k]))
            && (Outer(n, path[0]).None? <==> Ends(n, x))
            && (!Ends(n, x) ==> |path| == |n.nested| + 1)
  {
    hide Outer, NestingOf, WalkOut, RowDecodes, Ends;
    var n, path := NestingOf(t), TypePath(schema, t, x).value;
    var steps := |n.nested|;
    WalkLists(schema, t, x, steps);
    EndsWithinRows(n, x);
    assert Ancestor(n, x, |path|) == Outer(n, path[0]) by {
      assert Ancestor(n, x, |path| - 1) == Some(path[0]);
    }
    if Outer(n, path[0]).None? {
      EndStays(n, x, |path|, steps + 1);
    }
  }

  /** A chain that ends is named exactly when every type on it decodes. */
  lemma {:induction false} NameReadable(schema: Schema, t: Tables, x: u32)
    requires Ends(NestingOf(t), x)
    ensures TypePath(schema, t, x).Ok? <==> forall k: nat :: Legible(schema, t, x, k)
  {
    hide Outer, NestingOf, WalkOut, RowDecodes, Ends;
    var n := NestingOf(t);
    var steps := |n.nested|;
    WalkReadable(schema, t, x, steps);
    EndsWithinRows(n, x);
    forall k: nat | k > steps ensures Legible(schema, t, x, k) {
      EndStays(n, x, steps + 1, k);
    }
    assert Legible(schema, t, x, 0) == RowDecodes(schema, t, TYPE_DEF, x);
  }

  /**
   * A chain that cannot be named fails at the first type on it that does not decode: as malformed if
   * its row exists, and out of range if there is no such row.
   */
  lemma {:induction false} NameRefused(schema: Schema, t: Tables, x: u32)
    requires TypePath(schema, t, x).Err?
    ensures exists k ::
              && 0 <= k <= RowCount(t, NESTED_CLASS) && !Legible(schema, t, x, k) && (forall j | 0 <= j < k :: Legible(schema, t, x, j))
              && TypePath(schema, t, x) == Err(RowError(t, Ancestor(NestingOf(t), x, k).value))
  {
    hide Outer, NestingOf, RowDecodes;
    if !RowDecodes(schema, t, TYPE_DEF, x) {
      assert !Legible(schema, t, x, 0);
    } else {
      assert Legible(schema, t, x, 0);
      var k := WalkRefused(schema, t, x, RowCount(t, NESTED_CLASS));
    }
  }

  /** How reading a type definition that does not decode fails. */
  function RowError(t: Tables, x: u32): ErrorKind {
    if 1 <= x <= RowCount(t, 0x02) then Malformed else OutOfRange
  }

  lemma {:induction false} WalkRefused(schema: Schema, t: Tables, x: u32, steps: nat) returns (k: nat)
    requires WalkOut(schema, t, x, steps).Err?
    ensures 0 < k <= steps && !Legible(schema, t, x, k) && (forall j | 0 < j < k :: Legible(schema, t, x, j))
    ensures WalkOut(schema, t, x, steps) == Err(RowError(t, Ancestor(NestingOf(t), x, k).value))
    decreases steps
  {
    hide Outer, NestingOf, RowDecodes;
    var n := NestingOf(t);
    assert Ancestor(n, x, 1) == Outer(n, x);
    var y := Outer(n, x).value;
    if RowDecodes(schema, t, TYPE_DEF, y) {
      var k' := WalkRefused(schema, t, y, steps - 1);
      k := k' + 1;
      forall j: nat ensures Ancestor(n, x, 1 + j) == Ancestor(n, y, j) {
        AncestorShift(n, x, 1, j);
      }
      forall j | 1 < j < k ensures Legible(schema, t, x, j) {
        assert Legible(schema, t, y, j - 1);
        assert Ancestor(n, x, 1 + (j - 1)) == Ancestor(n, y, j - 1);
      }
      assert Ancestor(n, x, 1 + k') == Ancestor(n, y, k');
    } else {
      k := 1;
    }
  }

  // The lookups.

  method EnclosingType(schema: Schema, t: Tables, x: u32) returns (out: Result<Option<u32>>)
    requires ValidSchema(schema) && Honest(t)
    ensures out.Ok? ==> out.value == Enclosing(NestingOf(t), x)
    ensures Readable(schema, t) ==> out.Ok?
  {
    hide Column, Readable, FirstMatch, NonDecreasing, Honest;
    var first :- FirstRowWithKey(schema, t, NESTED_CLASS, x);
    match first
    case None => return Ok(None);
    case Some(rid) =>
      ReadCell(schema, t, NESTED_CLASS, rid, 1);
      var y :- RawColumn(t, NESTED_CLASS, rid, 1);
      return Ok(Some(y));
  }

  /** The types directly inside `x`, in row order: the nested types of the rows that name it. */
  function Inside(n: Nesting, x: u32): seq<u32>
    requires Paired(n)
    decreases |n.nested|
  {
    if n.nested == [] then []
    else
      var last := |n.nested| - 1;
      var init := Nesting(n.nested[..last], n.around[..last]);
      Inside(init, x) + (if n.around[last] == x then [n.nested[last]] else [])
  }

  /** A type is listed inside another exactly when some row says so; so whatever encloses it lists it. */
  lemma {:induction false} InsideExact(n: Nesting, x: u32, y: u32)
    requires Paired(n)
    ensures y in Inside(n, x) <==> exists i :: 0 <= i < |n.nested| && n.nested[i] == y && n.around[i] == x
    ensures Enclosing(n, y) == Some(x) ==> y in Inside(n, x)
    decreases |n.nested|
  {
    hide FirstMatch;
    if n.nested != [] {
      var last := |n.nested| - 1;
      var init := Nesting(n.nested[..last], n.around[..last]);
      InsideExact(init, x, y);
      forall i | 0 <= i < last
        ensures init.nested[i] == n.nested[i] && init.around[i] == n.around[i]
      {}
    }
  }

  /** They are listed in row order: by the ascending list of the rows whose second cell is the type. */
  lemma {:induction false} InsideOrdered(n: Nesting, x: u32) returns (rows: seq<nat>)
    requires Paired(n)
    ensures ListsKey(n.around, x, rows) && InRows(n, rows, Inside(n, x))
    decreases |n.nested|
  {
    hide ListsKey, InRows;
    if n.nested == [] {
      rows := [];
      NothingInside(n, x);
    } else {
      var last := |n.nested| - 1;
      var init := Nesting(n.nested[..last], n.around[..last]);
      rows := InsideOrdered(init, x);
      ListsNext(init.around, n.around[last], x, rows);
      assert init.around + [n.around[last]] == n.around;
      InRowsNext(n, rows, Inside(init, x));
      if n.around[last] == x {
        rows := rows + [last + 1];
      } else {
        assert Inside(init, x) + [] == Inside(init, x);
      }
    }
  }

  /** The types are the first cells of these rows. */
  ghost predicate InRows(n: Nesting, rows: seq<nat>, types: seq<u32>) {
    |types| == |rows| && forall k | 0 <= k < |rows| :: 1 <= rows[k] <= |n.nested| && types[k] == n.nested[rows[k] - 1]
  }

  lemma NothingInside(n: Nesting, x: u32)
    requires Paired(n) && n.nested == []
    ensures ListsKey(n.around, x, []) && InRows(n, [], Inside(n, x))
  {}

  lemma InRowsNext(n: Nesting, rows: seq<nat>, types: seq<u32>)
    requires Paired(n) && n.nested != []
    requires var last := |n.nested| - 1; InRows(Nesting(n.nested[..last], n.around[..last]), rows, types)
    ensures InRows(n, rows, types) && InRows(n, rows + [|n.nested|], types + [n.nested[|n.nested| - 1]])
  {}

  method NestedTypes(schema: Schema, t: Tables, x: u32) returns (out: Result<seq<u32>>)
    requires ValidSchema(schema)
    ensures out.Ok? ==> out.value == Inside(NestingOf(t), x)
    ensures Readable(schema, t) ==> out.Ok?
  {
    hide Column, Readable, RawColumn;
    var n := NestingOf(t);
    var count := RowCount(t, NESTED_CLASS);
    var types: seq<u32> := [];
    for rid := 1 to count + 1
      invariant types == Inside(Nesting(n.nested[..rid - 1], n.around[..rid - 1]), x)
    {
      ReadCell(schema, t, NESTED_CLASS, rid, 1);
      var around :- RawColumn(t, NESTED_CLASS, rid, 1);
      assert n.nested[..rid][..rid - 1] == n.nested[..rid - 1] && n.around[..rid][..rid - 1] == n.around[..rid - 1];
      if around == x {
        ReadCell(schema, t, NESTED_CLASS, rid, 0);
        var nested :- RawColumn(t, NESTED_CLASS, rid, 0);
        types := types + [nested];
      }
    }
    assert n.nested[..count] == n.nested && n.around[..count] == n.around;
    return Ok(types);
  }

  /** The parts of a type's name: its own row, then one enclosing type a turn, at most the row count. */
  method NameTypeDef(schema: Schema, t: Tables, x: u32) returns (out: Result<seq<u32>>)
    requires ValidSchema(schema) && Honest(t)
    ensures Readable(schema, t) ==> out == TypePath(schema, t, x)
  {
    hide Readable, NestingOf, RowDecodes, FieldsOf, ValidSchema, Enclosing;
    var _ :- RowIndirect(schema, t, TYPE_DEF, x);
    var path: seq<u32> := [x];
    var current := x;
    var count := RowCount(t, NESTED_CLASS);
    ghost var goal := TypePath(schema, t, x);
    for i := 0 to count
      invariant Readable(schema, t) ==> goal == Before(WalkOut(schema, t, current, count - i), path)
    {
      var outer :- EnclosingType(schema, t, current);
      if outer.None? || outer.value == 0 || outer.value == current {
        assert WalkOut(schema, t, current, count - i) == Ok([]);
        assert [] + path == path;
        return Ok(path);
      }
      var _ :- RowIndirect(schema, t, TYPE_DEF, outer.value);
      BeforeOne(WalkOut(schema, t, outer.value, count - i - 1), outer.value, path);
      path := [outer.value] + path;
      current := outer.value;
    }
    assert [] + path == path;
    return Ok(path);
  }

  function Before(r: Result<seq<u32>>, path: seq<u32>): Result<seq<u32>> {
    match r
    case Ok(v) => Ok(v + path)
    case Err(e) => Err(e)
  }

  lemma BeforeOne(r: Result<seq<u32>>, y: u32, path: seq<u32>)
    ensures Before(r, [y] + path) == match r case Ok(v) => Ok((v + [y]) + path) case Err(e) => Err(e)
  {
    if r.Ok? {
      assert r.value + ([y] + path) == (r.value + [y]) + path;
    }
  }
}
