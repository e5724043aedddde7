/**
 * What the table parser refuses (`Tables::parse` of src/tables/mod.rs): written streams that are cut
 * short, and headers that strict parsing does not take.
 */
module TableRefusals {
  import opened Wrappers
  import opened Bytes
  import opened Tokens
  import opened TableSchema
  import opened TableCoded
  import opened TableLayouts
  import opened TableSorted
  import opened TableRoundTrip

  /** A count that is cut, or whose later counts are, is truncated. */
  lemma {:induction false} CountsCut(counts: Counts, valid: Bits, slot: nat, k: nat, strict: bool)
    requires slot <= 64 && k < |PutCounts(counts, valid, slot)|
    requires forall t | slot <= t < 64 && counts[t] != 0 :: KnownTable(t) && BitSet(valid, t)
    requires strict ==> forall t | slot <= t < 64 && BitSet(valid, t) :: KnownTable(t)
    ensures CountsFrom(PutCounts(counts, valid, slot)[..k], valid, slot, strict) == Err(Truncated)
    decreases 64 - slot
  {
    hide BitSet, Put32, Le32, KnownTable;
    var s := PutCounts(counts, valid, slot)[..k];
    var later := PutCounts(counts, valid, slot + 1);
    if !BitSet(valid, slot) {
      assert s == later[..k];
      CountsCut(counts, valid, slot + 1, k, strict);
    } else if k >= 4 {
      assert s[..4] == Put32(counts[slot]) && s[4..] == later[..k - 4];
      Le32Put32(counts[slot]);
      CountsCut(counts, valid, slot + 1, k - 4, strict);
    }
  }

  /** Strict parsing refuses the valid bit of an unknown table, wherever it stands. */
  lemma {:induction false} CountsUnsupported(counts: Counts, valid: Bits, slot: nat, post: seq<byte>)
    requires slot <= 64 && exists t :: slot <= t < 64 && BitSet(valid, t) && !KnownTable(t)
    ensures CountsFrom(PutCounts(counts, valid, slot) + post, valid, slot, true) == Err(Unsupported)
    decreases 64 - slot
  {
    hide BitSet, Put32, Le32, KnownTable;
    var s := PutCounts(counts, valid, slot) + post;
    var later := PutCounts(counts, valid, slot + 1) + post;
    if BitSet(valid, slot) {
      assert s == Put32(counts[slot]) + later;
      assert s[..4] == Put32(counts[slot]) && s[4..] == later;
    } else {
      assert s == later;
    }
    if !BitSet(valid, slot) || KnownTable(slot) {
      CountsUnsupported(counts, valid, slot + 1, post);
    }
  }

  /** Strict layout is truncated when the tables from `slot` on need more bytes than there are. */
  lemma {:induction false} LayoutsCut(schema: Schema, image: Image, size: nat, slot: nat, cursor: nat)
    requires image.Coherent(schema) && slot <= 64 && cursor <= size < cursor + |image.PutTables(schema, slot)|
    ensures LayoutsFrom(schema, CountsOf(image.contents), image.heapSizes, size, slot, cursor, false, true) == Err(Truncated)
    decreases 64 - slot
  {
    hide PutTable, Sum, Widths, FitsWidth, CountsOf, Offsets, BitSet;
    CountsAre(image.contents);
    var ws, rows := image.WidthsOf(schema, slot), image.contents[slot];
    WidthsNarrow(schema[slot], CountsOf(image.contents), image.heapSizes);
    TableLength(rows, ws);
    if KnownTable(slot) && cursor + |rows| * Sum(ws) <= size {
      LayoutsCut(schema, image, size, slot + 1, cursor + |rows| * Sum(ws));
    } else if !KnownTable(slot) {
      assert rows == [];
      LayoutsCut(schema, image, size, slot + 1, cursor);
    }
  }

  /** What stands before the tables: the header, the counts and the extra word. */
  function Front(image: Image): seq<byte>
    requires |image.reserved| == 6
  {
    image.PutHeader() + PutCounts(CountsOf(image.contents), image.valid, 0) + image.PutExtra()
  }

  lemma PutIsFront(schema: Schema, image: Image)
    requires image.Coherent(schema)
    ensures image.Put(schema) == Front(image) + image.PutTables(schema, 0) + image.trailing
  {
    hide PutCounts, CountsOf, Image.PutTables, Image.PutHeader, Image.PutExtra;
  }

  lemma FrontCut(heads: seq<byte>, countBytes: seq<byte>, words: seq<byte>, k: nat)
    requires |heads| == 24 && k <= 24 + |countBytes| + |words|
    ensures var data := (heads + countBytes + words)[..k];
            k >= 24 ==>
              && data[..24] == heads
              && data[24..] == if k < 24 + |countBytes| then countBytes[..k - 24] else countBytes + words[..k - 24 - |countBytes|]
  {}

  /** A stream cut inside its header, its counts or its extra word is truncated. */
  lemma {:induction false} CutFront(schema: Schema, image: Image, k: nat, strict: bool)
    requires image.Coherent(schema) && (strict ==> image.Conforming()) && k < |Front(image)|
    ensures ParseLayout(schema, Front(image)[..k], strict) == Err(Truncated)
  {
    hide PutCounts, CountsOf, Image.PutHeader, CountsFrom, LayoutsFrom, Put32, Le32, BitSet, RowsFit, Image.WidthsOf;
    var data := Front(image)[..k];
    var counts, heads, words := CountsOf(image.contents), image.PutHeader(), image.PutExtra();
    var countBytes := PutCounts(counts, image.valid, 0);
    FrontCut(heads, countBytes, words, k);
    if k >= 24 {
      HeaderParts(image);
      HeapBits(image.heapSizes);
      CountsAre(image.contents);
      if k < 24 + |countBytes| {
        CountsCut(counts, image.valid, 0, k - 24, strict);
      } else {
        CountsReadBack(counts, image.valid, 0, words[..k - 24 - |countBytes|], strict);
      }
    }
  }

  /**
   * A stream cut before its end: in front of the tables it is truncated; inside them it is truncated to
   * strict parsing, while permissive parsing goes on.
   */
  lemma {:induction false} CutStream(schema: Schema, image: Image, k: nat, strict: bool)
    requires image.Coherent(schema) && (strict ==> image.Conforming())
    requires k < |Front(image)| + |image.PutTables(schema, 0)|
    ensures k <= |image.Put(schema)|
    ensures var parsed := ParseTables(schema, image.Put(schema)[..k], strict);
            if strict || k < |Front(image)| then parsed == Err(Truncated) else parsed.Ok?
  {
    hide ParseLayout, Front, Image.Put, Image.PutTables, Image.Conforming, RowsFit, BitSet, Image.WidthsOf;
    PutIsFront(schema, image);
    var data := image.Put(schema)[..k];
    if k < |Front(image)| {
      assert data == Front(image)[..k];
      CutFront(schema, image, k, strict);
    } else {
      var rest := image.PutTables(schema, 0)[..k - |Front(image)|];
      assert data == Front(image) + rest;
      CutTables(schema, image, rest, strict);
    }
  }

  lemma CutTables(schema: Schema, image: Image, rest: seq<byte>, strict: bool)
    requires image.Coherent(schema) && (strict ==> image.Conforming())
    requires |rest| < |image.PutTables(schema, 0)|
    ensures var parsed := ParseLayout(schema, Front(image) + rest, strict);
            if strict then parsed == Err(Truncated) else parsed.Ok?
  {
    hide PutCounts, CountsOf, Image.PutHeader, CountsFrom, LayoutsFrom, Put32, Le32, BitSet, RowsFit, Image.WidthsOf, Image.PutTables;
    var data := Front(image) + rest;
    var counts, words := CountsOf(image.contents), image.PutExtra();
    assert data[..24] == image.PutHeader();
    assert data[24..] == PutCounts(counts, image.valid, 0) + (words + rest);
    HeaderParts(image);
    HeapBits(image.heapSizes);
    CountsAre(image.contents);
    CountsReadBack(counts, image.valid, 0, words + rest, strict);
    assert counts[0..] == counts;
    var start: nat := |Front(image)|;
    if strict {
      LayoutsCut(schema, image, |data|, 0, start);
    } else {
      var point := ClampPoint(schema, counts, image.heapSizes, |data|, 0, start);
    }
  }

  /** Strict parsing refuses a header it does not take: an unknown heap size bit first, then an unknown table. */
  lemma {:induction false} NonConformingRefused(schema: Schema, image: Image)
    requires image.Coherent(schema) && !image.Conforming()
    ensures ParseTables(schema, image.Put(schema), true)
         == Err(if image.heapSizes / 0x10 % 2 == 1 then Malformed else Unsupported)
  {
    hide PutCounts, CountsOf, Image.PutHeader, CountsFrom, LayoutsFrom, Put32, Le32, BitSet, RowsFit, Image.WidthsOf, Image.PutTables;
    var data := image.Put(schema);
    assert data[..24] == image.PutHeader();
    HeaderParts(image);
    HeapBits(image.heapSizes);
    if image.heapSizes / 0x10 % 2 == 0 {
      var post := image.PutExtra() + (image.PutTables(schema, 0) + image.trailing);
      assert data[24..] == PutCounts(CountsOf(image.contents), image.valid, 0) + post;
      CountsUnsupported(CountsOf(image.contents), image.valid, 0, post);
    }
  }
}
