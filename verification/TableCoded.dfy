/** Coded indexes and column widths (src/tables/coded.rs and `column_width` of src/tables/mod.rs, section II.24.2.6). */
module TableCoded {
  import opened Wrappers
  import opened Bytes
  import opened Tokens
  import opened Readers
  import opened TableSchema

  /** Unpacks a column value: the tag selects the table, the rest is the row id. */
  function Decode(k: CodedIndex, value: u32): Result<Token> {
    var tag := value % TagSize(k);
    if tag < |TablesOf(k)| && TablesOf(k)[tag].Some?
    then Ok(NewToken(TablesOf(k)[tag].value, value / TagSize(k)))
    else Err(Malformed)
  }

  /** The first position of `table` in a tag list. */
  function TagOf(tables: seq<Option<TableId>>, table: TableId): (tag: Option<nat>)
    ensures tag.Some? ==> tag.value < |tables| && tables[tag.value] == Some(table)
    ensures tag.None? ==> Some(table) !in tables
  {
    if tables == [] then None
    else if tables[0] == Some(table) then Some(0)
    else
      var tag := TagOf(tables[1..], table);
      if tag.Some? then Some(1 + tag.value) else None
  }

  function Encode(k: CodedIndex, token: Token): Option<u32> {
    if TableOf(token).None? || TagOf(TablesOf(k), TableOf(token).value).None? then None
    else
      TagListFits(k);
      if RidOf(token) > 0xFFFF_FFFF / TagSize(k) then None
      else
        PackFits(RidOf(token), TagSize(k), TagOf(TablesOf(k), TableOf(token).value).value);
        Some(RidOf(token) * TagSize(k) + TagOf(TablesOf(k), TableOf(token).value).value)
  }

  lemma PackFits(rid: u32, size: nat, tag: nat)
    requires size == 2 || size == 4 || size == 8 || size == 32
    requires tag < size && rid <= 0xFFFF_FFFF / size
    ensures rid * size + tag <= 0xFFFF_FFFF
    ensures (rid * size + tag) % size == tag && (rid * size + tag) / size == rid
  {
    var most: nat := 0xFFFF_FFFF / size;
    assert size * most + (size - 1) == 0xFFFF_FFFF;
    MulMono(size, rid, most);
    ModUnique(rid * size + tag, size, rid, tag);
  }

  predicate Distinct(tables: seq<Option<TableId>>) {
    forall i, j | 0 <= i < j < |tables| && tables[i].Some? :: tables[i] != tables[j]
  }

  /** Every tag list fits its tag bits, and no table has two tags. */
  lemma {:induction false} TagListFits(k: CodedIndex)
    ensures |TablesOf(k)| <= TagSize(k) && Distinct(TablesOf(k))
  {
    if k == HasCustomAttribute || k == HasCustomDebugInformation {
      LongListDistinct();
      LongListFront();
    }
  }

  /** Where a table stands in the longest list. */
  function Position(t: TableId): nat {
    if t == METHOD_DEF then 0
    else if t == FIELD then 1
    else if t == TYPE_REF then 2
    else if t == TYPE_DEF then 3
    else if t == PARAM then 4
    else if t == INTERFACE_IMPL then 5
    else if t == MEMBER_REF then 6
    else if t == MODULE then 7
    else if t == DECL_SECURITY then 8
    else if t == PROPERTY then 9
    else if t == EVENT then 10
    else if t == STAND_ALONE_SIG then 11
    else if t == MODULE_REF then 12
    else if t == TYPE_SPEC then 13
    else if t == ASSEMBLY then 14
    else if t == ASSEMBLY_REF then 15
    else if t == FILE then 16
    else if t == EXPORTED_TYPE then 17
    else if t == MANIFEST_RESOURCE then 18
    else if t == GENERIC_PARAM then 19
    else if t == GENERIC_PARAM_CONSTRAINT then 20
    else if t == METHOD_SPEC then 21
    else if t == DOCUMENT then 22
    else if t == LOCAL_SCOPE then 23
    else if t == LOCAL_VARIABLE then 24
    else if t == LOCAL_CONSTANT then 25
    else if t == IMPORT_SCOPE then 26
    else 27
  }

  lemma PositionsOfLongList()
    ensures var tables := TablesOf(HasCustomDebugInformation);
            forall i | 0 <= i < |tables| :: tables[i].Some? && Position(tables[i].value) == i
  {}

  lemma LongListDistinct()
    ensures Distinct(TablesOf(HasCustomDebugInformation))
  {
    hide TablesOf, Position;
    PositionsOfLongList();
  }

  /** The next longest list is the front of the longest. */
  lemma LongListFront()
    ensures TablesOf(HasCustomAttribute) == TablesOf(HasCustomDebugInformation)[..22]
  {}

  /** Encoding then decoding gives the token back, whenever the kind can carry its table. */
  lemma {:induction false} DecodeEncode(k: CodedIndex, token: Token)
    ensures Encode(k, token).Some? <==> TableOf(token).Some? && TableOf(token) in TablesOf(k)
    ensures Encode(k, token).Some? ==> Decode(k, Encode(k, token).value) == Ok(token)
  {
    hide TablesOf, TagOf, TableOf, RidOf, NewToken;
    RidSmall(token);
    TagListFits(k);
    if TableOf(token).Some? && TagOf(TablesOf(k), TableOf(token).value).Some? {
      PackFits(RidOf(token), TagSize(k), TagOf(TablesOf(k), TableOf(token).value).value);
      TokenRebuild(token);
    }
  }

  lemma RidSmall(t: Token)
    ensures RidOf(t) < 0x100_0000
  {}

  /**
   * Decoding then encoding gives the column value back exactly when its row id fits in the 24
   * bits of a token; a wider one comes back as another value.
   */
  lemma {:induction false} EncodeDecode(k: CodedIndex, value: u32)
    requires Decode(k, value).Ok?
    ensures Encode(k, Decode(k, value).value) == Some(value) <==> value / TagSize(k) < 0x100_0000
  {
    hide TablesOf, TagOf, TableOf, RidOf, NewToken, TagSize;
    var size := TagSize(k);
    var tag, rid := value % size, value / size;
    TagListFits(k);
    var table := TablesOf(k)[tag].value;
    TokenRoundTrip(table, rid);
    var token := NewToken(table, rid);
    RidSmall(token);
    var first := TagOf(TablesOf(k), table).value;
    assert first == tag;
    PackFits(RidOf(token), size, tag);
    Repacked(value, size);
  }

  lemma Repacked(value: nat, size: nat)
    requires size > 0
    ensures value / size * size + value % size == value
  {}

  // Column widths.

  type Counts = s: seq<u32> | |s| == 64 witness seq(64, i => 0)

  /** The largest row count among the tables a tag list names. */
  function MaxRows(tables: seq<Option<TableId>>, counts: Counts): (n: nat)
    ensures forall t | t in tables && t.Some? :: counts[t.value] <= n
    ensures n == 0 || exists t | t in tables && t.Some? :: counts[t.value] == n
  {
    if tables == [] then 0
    else
      var rest := MaxRows(tables[1..], counts);
      assert forall t | t in tables :: t == tables[0] || t in tables[1..];
      assert forall t | t in tables[1..] :: t in tables;
      match tables[0]
      case None => rest
      case Some(table) => Max(counts[table], rest)
  }

  predicate HeapBit(heapSizes: byte, mask: byte)
    requires mask > 0
  {
    heapSizes / mask % 2 == 1
  }

  /** A simple index must reach both the table and the `*Ptr` table that may redirect into it. */
  function RidRows(target: TableId, counts: Counts): nat {
    match PtrSource(target)
    case None => counts[target]
    case Some(ptr) => Max(counts[target], counts[ptr])
  }

  function ColumnWidth(kind: ColumnKind, counts: Counts, heapSizes: byte): (w: nat)
    ensures w == 2 || w == 4
  {
    match kind
    case U16 => 2
    case U32 => 4
    case StringIndex => if HeapBit(heapSizes, 1) then 4 else 2
    case GuidIndex => if HeapBit(heapSizes, 2) then 4 else 2
    case BlobIndex => if HeapBit(heapSizes, 4) then 4 else 2
    case Rid(target) => if RidRows(target, counts) < 0x1_0000 then 2 else 4
    case Coded(k) => if MaxRows(TablesOf(k), counts) < 0x1_0000 / TagSize(k) then 2 else 4
  }

  /** `v` fits in a little-endian column of `width` bytes. */
  predicate FitsWidth(v: nat, width: nat) {
    if width == 2 then v < 0x1_0000 else v < 0x1_0000_0000
  }

  /** The computed width loses no simple reference to a row the target, or its `*Ptr` table, has. */
  lemma RidWidthAdequate(target: TableId, rid: nat, counts: Counts, heapSizes: byte)
    requires rid <= RidRows(target, counts)
    ensures FitsWidth(rid, ColumnWidth(Rid(target), counts, heapSizes))
  {}

  /** `v` encodes a reference to a row that exists. */
  predicate Refers(k: CodedIndex, counts: Counts, token: Token, v: u32) {
    Encode(k, token) == Some(v) && RidOf(token) <= counts[TableOf(token).value]
  }

  /** The computed width loses no coded reference to a row its table has. */
  lemma {:induction false} CodedWidthAdequate(k: CodedIndex, token: Token, v: u32, counts: Counts, heapSizes: byte)
    requires Refers(k, counts, token, v)
    ensures FitsWidth(v, ColumnWidth(Coded(k), counts, heapSizes))
  {
    hide TablesOf, TagOf, TableOf, RidOf;
    TagListFits(k);
    var size := TagSize(k);
    var max := MaxRows(TablesOf(k), counts);
    assert TableOf(token) in TablesOf(k);
    assert RidOf(token) <= max;
    if max < 0x1_0000 / size {
      PackSmall(RidOf(token), size, TagOf(TablesOf(k), TableOf(token).value).value);
    }
  }

  lemma PackSmall(rid: nat, size: nat, tag: nat)
    requires size == 2 || size == 4 || size == 8 || size == 32
    requires tag < size && rid < 0x1_0000 / size
    ensures rid * size + tag < 0x1_0000
  {}

  /** A kind carries every row id below 2^24 of a table it lists. */
  lemma EncodesListed(k: CodedIndex, table: TableId, rid: nat)
    requires Some(table) in TablesOf(k) && rid < RID_LIMIT
    ensures var token := NewToken(table, rid);
            Encode(k, token).Some? && TableOf(token) == Some(table) && RidOf(token) == rid
            && rid * TagSize(k) <= Encode(k, token).value
  {
    hide TablesOf, TagOf, NewToken, TableOf, RidOf;
    TokenRoundTrip(table, rid);
    DecodeEncode(k, NewToken(table, rid));
    if TagOf(TablesOf(k), table).Some? {
      TagListFits(k);
    }
  }

  /** Once a table reaches the limit, one of its rows has a reference too wide for two bytes. */
  lemma WideReference(k: CodedIndex, counts: Counts) returns (token: Token, v: u32)
    requires 0x1_0000 / TagSize(k) <= MaxRows(TablesOf(k), counts)
    ensures Refers(k, counts, token, v) && !FitsWidth(v, 2)
  {
    hide TablesOf, TagOf, NewToken, TableOf, RidOf, Encode;
    var max := MaxRows(TablesOf(k), counts);
    var t :| t in TablesOf(k) && t.Some? && counts[t.value] == max;
    var rid := if max < RID_LIMIT then max else RID_LIMIT - 1;
    EncodesListed(k, t.value, rid);
    PackWide(rid, TagSize(k));
    token, v := NewToken(t.value, rid), Encode(k, NewToken(t.value, rid)).value;
  }

  lemma PackWide(rid: nat, size: nat)
    requires size == 2 || size == 4 || size == 8 || size == 32
    requires 0x1_0000 / size <= rid
    ensures 0x1_0000 <= rid * size
  {}

  /** A list column can hold one past the end of its target for every row count but 0xFFFF. */
  lemma OnePastTheEnd(target: TableId, counts: Counts, heapSizes: byte)
    requires RidRows(target, counts) < 0xFFFF_FFFF
    ensures FitsWidth(RidRows(target, counts) + 1, ColumnWidth(Rid(target), counts, heapSizes))
       <==> RidRows(target, counts) != 0xFFFF
  {}
}
