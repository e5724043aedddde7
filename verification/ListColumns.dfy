/**
 * List columns (`list_range` and `owner_of_list` of src/tables/lookup.rs): an owner row holds the
 * run of member rows from its own cell up to the next owner's.
 */
module ListColumns {
  import opened Wrappers
  import opened Bytes
  import opened Tokens
  import opened TableSchema
  import opened TableCoded
  import opened TableLayouts
  import opened TableSorted

  /** A half-open range of row ids. */
  datatype Range = Range(lo: nat, hi: nat) {
    predicate Has(rid: nat) {
      lo <= rid < hi
    }
  }

  function Clamp(v: nat, limit: nat): nat
    requires limit >= 1
  {
    if v < 1 then 1 else if v > limit then limit else v
  }

  /** The run of one owner; `limit` is one past the last logical member. */
  function RangeOf(cells: seq<u32>, limit: nat, owner: nat): Range
    requires 1 <= owner <= |cells| && limit >= 1
  {
    var lo := Clamp(cells[owner - 1], limit);
    var end := if owner == |cells| then limit else Clamp(cells[owner], limit);
    Range(lo, Max(end, lo))
  }

  predicate Owns(cells: seq<u32>, limit: nat, owner: nat, member: nat) {
    1 <= owner <= |cells| && limit >= 1 && RangeOf(cells, limit, owner).Has(member)
  }

  /**
   * On any column, an owner has exactly the members from its own cell up to the next owner's, and the
   * last owner all the later ones; where its cell exceeds the next one it has none. The run starts
   * inside 1..limit whether it is empty or not.
   */
  lemma {:induction false} RunExact(cells: seq<u32>, limit: nat, owner: nat, member: nat)
    requires 1 <= owner <= |cells| && limit >= 1
    ensures Owns(cells, limit, owner, member) <==>
              && 1 <= member < limit && cells[owner - 1] <= member
              && (owner == |cells| || member < cells[owner])
    ensures var run := RangeOf(cells, limit, owner);
            && 1 <= run.lo <= run.hi <= limit
            && (1 <= cells[owner - 1] <= limit ==> run.lo == cells[owner - 1])
            && (owner < |cells| && cells[owner - 1] <= cells[owner] && 1 <= cells[owner] <= limit ==> run.hi == cells[owner])
  {}

  ghost predicate Owned(cells: seq<u32>, limit: nat, member: nat) {
    exists owner :: Owns(cells, limit, owner, member)
  }

  /** The cells up to `candidate` start at or before the member, the ones after it later. */
  ghost predicate Splits(cells: seq<u32>, member: nat, candidate: nat) {
    && candidate <= |cells|
    && (forall i | 0 <= i < candidate :: cells[i] <= member)
    && (forall i | candidate <= i < |cells| :: cells[i] > member)
  }

  /** An owner's run ends at or before a member the next owner starts at or before. */
  lemma RunEnds(cells: seq<u32>, limit: nat, member: nat, owner: nat)
    requires 1 <= owner < |cells| && limit >= 1
    requires cells[owner - 1] <= member && cells[owner] <= member
    ensures !Owns(cells, limit, owner, member)
  {}

  /** On a non-decreasing column only the last owner that starts in time can own a member. */
  lemma OnlyCandidateOwns(cells: seq<u32>, limit: nat, member: nat, candidate: nat, owner: nat)
    requires Splits(cells, member, candidate) && Owns(cells, limit, owner, member)
    ensures owner == candidate
  {
    if owner < candidate {
      RunEnds(cells, limit, member, owner);
    }
  }

  /** The number of leading cells at or before the member. */
  function Candidate(cells: seq<u32>, member: nat): (n: nat)
    ensures n <= |cells|
    ensures NonDecreasing(cells) ==> Splits(cells, member, n)
  {
    if cells == [] || cells[0] > member then 0
    else
      var n := Candidate(cells[1..], member);
      assert forall i | 0 < i < |cells| :: cells[i] == cells[1..][i - 1];
      n + 1
  }

  /** A member of a non-decreasing list column has one owner at most. */
  lemma {:induction false} OwnerUnique(cells: seq<u32>, limit: nat, member: nat, a: nat, b: nat)
    requires NonDecreasing(cells) && Owns(cells, limit, a, member) && Owns(cells, limit, b, member)
    ensures a == b
  {
    var n := Candidate(cells, member);
    OnlyCandidateOwns(cells, limit, member, n, a);
    OnlyCandidateOwns(cells, limit, member, n, b);
  }

  /** The runs of a non-decreasing column cover exactly the members from its first cell on. */
  lemma {:induction false} OwnerExists(cells: seq<u32>, limit: nat, member: nat)
    requires NonDecreasing(cells) && cells != [] && limit >= 1
    ensures Owns(cells, limit, Candidate(cells, member), member) <==> Clamp(cells[0], limit) <= member < limit
    ensures Owned(cells, limit, member) <==> Clamp(cells[0], limit) <= member < limit
  {
    var n := Candidate(cells, member);
    if Clamp(cells[0], limit) <= member < limit {
      assert n > 0;
      assert cells[n - 1] <= member;
      assert n < |cells| ==> cells[n] > member;
      assert Owns(cells, limit, n, member);
    }
    forall owner | Owns(cells, limit, owner, member)
      ensures owner == n && Clamp(cells[0], limit) <= member < limit
    {
      OnlyCandidateOwns(cells, limit, member, n, owner);
      assert cells[0] <= cells[n - 1];
    }
  }

  /**
   * The runs of a non-decreasing column partition the members: they never overlap, and they
   * cover all of 1..limit exactly when the first cell is 0 or 1, or there is no member.
   */
  lemma {:induction false} RunsPartition(cells: seq<u32>, limit: nat)
    requires NonDecreasing(cells) && cells != [] && limit >= 1
    ensures forall a, b, member | Owns(cells, limit, a, member) && Owns(cells, limit, b, member) :: a == b
    ensures (forall member | 1 <= member < limit :: Owned(cells, limit, member))
       <==> cells[0] <= 1 || limit == 1
  {
    forall a, b, member | Owns(cells, limit, a, member) && Owns(cells, limit, b, member) ensures a == b {
      OwnerUnique(cells, limit, member, a, b);
    }
    forall member: nat
      ensures Owned(cells, limit, member) <==> Clamp(cells[0], limit) <= member < limit
    {
      OwnerExists(cells, limit, member);
    }
    if cells[0] > 1 && limit > 1 {
      assert !Owned(cells, limit, 1);
    }
  }

  // Walking every owner's run in turn.

  function Members(r: Range): (s: seq<nat>)
    ensures forall m :: m in s <==> r.lo <= m < r.hi
    decreases r.hi - r.lo
  {
    if r.lo >= r.hi then [] else [r.lo] + Members(Range(r.lo + 1, r.hi))
  }

  lemma {:induction false} MembersAt(a: nat, b: nat, k: nat)
    requires a <= b
    ensures |Members(Range(a, b))| == b - a
    ensures k < b - a ==> Members(Range(a, b))[k] == a + k
    decreases b - a
  {
    if a < b {
      MembersAt(a + 1, b, if k > 0 then k - 1 else 0);
    }
  }

  lemma {:induction false} MembersJoin(a: nat, b: nat, c: nat)
    requires a <= b <= c
    ensures Members(Range(a, b)) + Members(Range(b, c)) == Members(Range(a, c))
  {
    hide Members;
    var front, back, whole := Members(Range(a, b)), Members(Range(b, c)), Members(Range(a, c));
    MembersAt(a, b, 0);
    MembersAt(b, c, 0);
    MembersAt(a, c, 0);
    forall k | 0 <= k < c - a ensures (front + back)[k] == whole[k] {
      MembersAt(a, c, k);
      if k < b - a {
        MembersAt(a, b, k);
      } else {
        MembersAt(b, c, k - (b - a));
      }
    }
  }

  /** The members of every owner from `owner` on, in owner order. */
  function WalkFrom(cells: seq<u32>, limit: nat, owner: nat): seq<nat>
    requires 1 <= owner <= |cells| + 1 && limit >= 1
    decreases |cells| + 1 - owner
  {
    if owner == |cells| + 1 then [] else Members(RangeOf(cells, limit, owner)) + WalkFrom(cells, limit, owner + 1)
  }

  lemma {:induction false} WalkContiguous(cells: seq<u32>, limit: nat, owner: nat)
    requires NonDecreasing(cells) && 1 <= owner <= |cells| && limit >= 1
    ensures WalkFrom(cells, limit, owner) == Members(Range(Clamp(cells[owner - 1], limit), limit))
    decreases |cells| - owner
  {
    hide Members;
    if owner == |cells| {
      assert WalkFrom(cells, limit, owner + 1) == [];
    } else {
      WalkContiguous(cells, limit, owner + 1);
      assert cells[owner - 1] <= cells[owner];
      MembersJoin(Clamp(cells[owner - 1], limit), Clamp(cells[owner], limit), limit);
    }
  }

  // Through the `*Ptr` tables.

  /** The physical rows a list of logical members resolves to. */
  function Visited(t: Tables, table: TableId, members: seq<nat>): seq<Result<nat>> {
    seq(|members|, i requires 0 <= i < |members| => ResolveIndirection(t, table, members[i]))
  }

  /** The rows 1 to `n`, each once. */
  function Rows(n: nat): seq<Result<nat>> {
    seq(n, i requires i >= 0 => Ok(i + 1))
  }

  function AsRows(cells: seq<u32>): seq<Result<nat>> {
    seq(|cells|, i requires 0 <= i < |cells| => Ok(cells[i]))
  }

  /** The pointer cells of a table, when it has a non-empty pointer table. */
  function Pointers(t: Tables, table: TableId): Option<seq<u32>> {
    match PtrSource(table)
    case Some(ptr) => if RowCount(t, ptr) > 0 then Some(Column(t, ptr, 0)) else None
    case None => None
  }

  /** The logical members resolve, in order, to the pointer cells, or to the rows themselves. */
  lemma VisitedAll(schema: Schema, t: Tables, table: TableId)
    requires ValidSchema(schema) && Readable(schema, t)
    ensures var visited := Visited(t, table, Members(Range(1, LogicalRowCount(t, table) + 1)));
            match Pointers(t, table)
            case None => visited == Rows(RowCount(t, table))
            case Some(cells) => visited == AsRows(cells)
  {
    hide Members, RawColumn, Column, Readable;
    var n := LogicalRowCount(t, table);
    var members := Members(Range(1, n + 1));
    MembersAt(1, n + 1, 0);
    forall k | 0 <= k < n ensures members[k] == k + 1 {
      MembersAt(1, n + 1, k);
    }
    if Pointers(t, table).Some? {
      var ptr := PtrSource(table).value;
      forall k | 0 <= k < n ensures ResolveIndirection(t, table, k + 1) == Ok(Column(t, ptr, 0)[k]) {
        ReadCell(schema, t, ptr, k + 1, 0);
      }
    }
  }

  /**
   * Walking all owners of a non-decreasing list column that starts at 0 or 1 visits every physical
   * row exactly once, through the pointer table too, if and only if the pointer cells, where there
   * are any, are a permutation of the physical rows.
   */
  lemma WalkVisitsEachRowOnce(schema: Schema, t: Tables, ownerTable: TableId, column: nat, target: TableId)
    requires ValidSchema(schema) && Readable(schema, t)
    requires var cells := Column(t, ownerTable, column); NonDecreasing(cells) && cells != [] && cells[0] <= 1
    ensures var cells := Column(t, ownerTable, column);
            var walk := WalkFrom(cells, LogicalRowCount(t, target) + 1, 1);
            multiset(Visited(t, target, walk)) == multiset(Rows(RowCount(t, target))) <==>
            match Pointers(t, target)
            case None => true
            case Some(pointers) => multiset(AsRows(pointers)) == multiset(Rows(RowCount(t, target)))
  {
    hide Members, Column, Readable, NonDecreasing, Visited, Rows, AsRows, ValidSchema, Pointers;
    var cells := Column(t, ownerTable, column);
    WalkContiguous(cells, LogicalRowCount(t, target) + 1, 1);
    VisitedAll(schema, t, target);
  }

  lemma SplitsOnce(cells: seq<u32>, member: nat, a: nat, b: nat)
    requires Splits(cells, member, a) && Splits(cells, member, b)
    ensures a == b
  {
    if a != b {
      var i := if a < b then a else b;
      SplitsAt(cells, member, a, i);
      SplitsAt(cells, member, b, i);
    }
  }

  lemma SplitsAt(cells: seq<u32>, member: nat, candidate: nat, i: nat)
    requires Splits(cells, member, candidate) && i < |cells|
    ensures cells[i] <= member <==> i < candidate
  {}

  // The lookups.

  method ListRange(schema: Schema, t: Tables, ownerTable: TableId, owner: nat, column: nat, target: TableId) returns (out: Result<Range>)
    ensures out.Ok? ==>
              && 1 <= owner <= RowCount(t, ownerTable)
              && out.value == RangeOf(Column(t, ownerTable, column), LogicalRowCount(t, target) + 1, owner)
    ensures Readable(schema, t) ==> (out.Ok? <==> 1 <= owner <= RowCount(t, ownerTable) && column < |schema[ownerTable]|)
  {
    hide RawColumn, Column, LogicalRowCount;
    var count := RowCount(t, ownerTable);
    if owner == 0 || owner > count {
      return Err(OutOfRange);
    }
    ReadCell(schema, t, ownerTable, owner, column);
    if owner < count {
      ReadCell(schema, t, ownerTable, owner + 1, column);
    }
    var limit := LogicalRowCount(t, target) + 1;
    var start :- RawColumn(t, ownerTable, owner, column);
    var lo := Clamp(start, limit);
    var end := limit;
    if owner != count {
      var next :- RawColumn(t, ownerTable, owner + 1, column);
      end := Clamp(next, limit);
    }
    return Ok(Range(lo, Max(end, lo)));
  }

  /** The last owner that starts at or before the member, if the column is non-decreasing; some owner otherwise. */
  method SearchOwner(schema: Schema, t: Tables, ownerTable: TableId, column: nat, member: nat) returns (out: Result<nat>)
    requires RowCount(t, ownerTable) > 0
    ensures out.Ok? ==> out.value <= RowCount(t, ownerTable)
    ensures out.Ok? && NonDecreasing(Column(t, ownerTable, column)) ==> Splits(Column(t, ownerTable, column), member, out.value)
    ensures Readable(schema, t) && column < |schema[ownerTable]| ==> out.Ok?
  {
    hide RawColumn, Cell, Readable, Column;
    ghost var cells := Column(t, ownerTable, column);
    var lo, hi, candidate := 1, RowCount(t, ownerTable), 0;
    while lo <= hi
      invariant 1 <= lo <= hi + 1 <= |cells| + 1 && candidate == lo - 1
      invariant NonDecreasing(cells) ==> forall i | 0 <= i < lo - 1 :: cells[i] <= member
      invariant NonDecreasing(cells) ==> forall i | hi <= i < |cells| :: cells[i] > member
    {
      var mid := lo + (hi - lo) / 2;
      ReadCell(schema, t, ownerTable, mid, column);
      var cell :- RawColumn(t, ownerTable, mid, column);
      if cell <= member {
        candidate := mid;
        lo := mid + 1;
      } else if mid == 1 {
        hi := 0;
        break;
      } else {
        hi := mid - 1;
      }
    }
    return Ok(candidate);
  }

  /**
   * Some owner of the member, or none when no owner has it: on any column, even a non-monotone
   * one. On readable tables the lookup does not fail.
   */
  method OwnerOfList(schema: Schema, t: Tables, ownerTable: TableId, column: nat, target: TableId, member: nat)
    returns (out: Result<Option<nat>>)
    ensures var cells, limit := Column(t, ownerTable, column), LogicalRowCount(t, target) + 1;
            match out
            case Ok(Some(owner)) => Owns(cells, limit, owner, member)
            case Ok(None) => !Owned(cells, limit, member)
            case Err(_) => !(Readable(schema, t) && column < |schema[ownerTable]|)
  {
    hide RawColumn, Cell, Readable, Column, RangeOf, LogicalRowCount;
    ghost var cells, limit := Column(t, ownerTable, column), LogicalRowCount(t, target) + 1;
    var count := RowCount(t, ownerTable);
    if count == 0 || member == 0 {
      NoOwnerOfZero(cells, limit);
      return Ok(None);
    }
    var candidate :- SearchOwner(schema, t, ownerTable, column, member);
    if candidate != 0 {
      var range :- ListRange(schema, t, ownerTable, candidate, column, target);
      if range.Has(member) {
        return Ok(Some(candidate));
      }
    }
    for rid := 1 to count + 1
      invariant forall owner: nat | owner < rid :: !Owns(cells, limit, owner, member)
    {
      var range :- ListRange(schema, t, ownerTable, rid, column, target);
      if range.Has(member) {
        return Ok(Some(rid));
      }
    }
    return Ok(None);
  }

  lemma NoOwnerOfZero(cells: seq<u32>, limit: nat)
    ensures forall owner :: !Owns(cells, limit, owner, 0)
  {}

  /**
   * On a non-decreasing column the answer is the candidate alone: where it does not own the member
   * nobody does, so the fallback scan never finds another.
   */
  lemma CandidateSuffices(cells: seq<u32>, limit: nat, member: nat, candidate: nat)
    requires NonDecreasing(cells) && Splits(cells, member, candidate)
    ensures Owned(cells, limit, member) <==> Owns(cells, limit, candidate, member)
    ensures candidate == Candidate(cells, member)
  {
    forall owner | Owns(cells, limit, owner, member) ensures owner == candidate {
      OnlyCandidateOwns(cells, limit, member, candidate, owner);
    }
    SplitsOnce(cells, member, candidate, Candidate(cells, member));
  }

  // The list columns of the standard's schema.

  /** The member table of each list column the list and owner lookups use. */
  function ListTarget(ownerTable: TableId, column: nat): Option<TableId> {
    if ownerTable == TYPE_DEF && column == 4 then Some(FIELD)
    else if ownerTable == TYPE_DEF && column == 5 then Some(METHOD_DEF)
    else if ownerTable == METHOD_DEF && column == 5 then Some(PARAM)
    else if ownerTable == EVENT_MAP && column == 1 then Some(EVENT)
    else if ownerTable == PROPERTY_MAP && column == 1 then Some(PROPERTY)
    else None
  }

  /**
   * The columns these lookups use hold row ids of the member tables they assume, wide enough for
   * every member, through a pointer table too, and for one past the last unless there are 0xFFFF.
   */
  lemma {:induction false} ListColumnsReach(ownerTable: TableId, column: nat, counts: Counts, heapSizes: byte, member: nat)
    requires ListTarget(ownerTable, column).Some?
    requires var rows := RidRows(ListTarget(ownerTable, column).value, counts); member <= rows < 0xFFFF_FFFF
    ensures var target := ListTarget(ownerTable, column).value;
            var columns := EcmaSchema()[ownerTable];
            && column < |columns| && columns[column] == Rid(target)
            && FitsWidth(member, ColumnWidth(columns[column], counts, heapSizes))
            && (FitsWidth(RidRows(target, counts) + 1, ColumnWidth(columns[column], counts, heapSizes))
                <==> RidRows(target, counts) != 0xFFFF)
  {
    ListColumnsMatch();
    hide RidRows, ColumnWidth, FitsWidth;
    var target := ListTarget(ownerTable, column).value;
    assert EcmaSchema()[ownerTable] == ColumnsOf(ownerTable);
    assert column < |ColumnsOf(ownerTable)| && ColumnsOf(ownerTable)[column] == Rid(target);
    RidWidthAdequate(target, member, counts, heapSizes);
    OnePastTheEnd(target, counts, heapSizes);
  }

  /** An owner lookup on one of these columns never fails: it finds an owner exactly when there is one. */
  ghost predicate FindsOwner(t: Tables, ownerTable: TableId, column: nat, member: nat, out: Result<Option<nat>>)
    requires ListTarget(ownerTable, column).Some?
  {
    var cells, limit := Column(t, ownerTable, column), LogicalRowCount(t, ListTarget(ownerTable, column).value) + 1;
    match out
    case Ok(Some(owner)) => Owns(cells, limit, owner, member)
    case Ok(None) => !Owned(cells, limit, member)
    case Err(_) => false
  }

  lemma ListColumnExists(ownerTable: TableId, column: nat)
    requires ListTarget(ownerTable, column).Some?
    ensures column < |EcmaSchema()[ownerTable]|
  {
    ListColumnsMatch();
  }

  /** Field to owning type. */
  method TypeOfField(t: Tables, field: nat) returns (out: Result<Option<nat>>)
    requires Readable(EcmaSchema(), t)
    ensures FindsOwner(t, TYPE_DEF, 4, field, out)
  {
    hide Readable, EcmaSchema;
    ListColumnExists(TYPE_DEF, 4);
    out := OwnerOfList(EcmaSchema(), t, TYPE_DEF, 4, FIELD, field);
  }

  /** Method to owning type. */
  method TypeOfMethod(t: Tables, member: nat) returns (out: Result<Option<nat>>)
    requires Readable(EcmaSchema(), t)
    ensures FindsOwner(t, TYPE_DEF, 5, member, out)
  {
    hide Readable, EcmaSchema;
    ListColumnExists(TYPE_DEF, 5);
    out := OwnerOfList(EcmaSchema(), t, TYPE_DEF, 5, METHOD_DEF, member);
  }

  /** Parameter to owning method. */
  method MethodOfParam(t: Tables, param: nat) returns (out: Result<Option<nat>>)
    requires Readable(EcmaSchema(), t)
    ensures FindsOwner(t, METHOD_DEF, 5, param, out)
  {
    hide Readable, EcmaSchema;
    ListColumnExists(METHOD_DEF, 5);
    out := OwnerOfList(EcmaSchema(), t, METHOD_DEF, 5, PARAM, param);
  }
}
