/**
 * The chain of method data sections (src/body.rs `parse_sections` and `read_clause`, section
 * II.25.4.5 of ECMA-335), with its two readings of an exception section's declared size.
 */
module BodySections {
  import opened Wrappers
  import opened Bytes
  import opened Readers
  import opened BodyHandlers

  datatype RawSection = RawSection(kind: byte, data: seq<byte>)

  datatype Sections = Sections(handlers: seq<ExceptionHandler>, unknown: seq<RawSection>)

  function ClauseSize(fat: bool): nat {
    if fat then 24 else 12
  }

  function KindOf(flags: u32, extra: u32): Option<HandlerKind> {
    match flags % 8
    case 0 => Some(Catch(extra))
    case 1 => Some(Filter(extra))
    case 2 => Some(Finally)
    case 4 => Some(FaultHandler)
    case _ => None
  }

  /** `read_clause`: one clause of 24 or 12 bytes. */
  function ReadClause(s: seq<byte>, fat: bool): Result<ExceptionHandler>
    requires |s| == ClauseSize(fat)
  {
    var (flags, tryOffset, tryLength, handlerOffset, handlerLength, extra) :=
      if fat then
        (Le32(s[..4]), Le32(s[4..8]), Le32(s[8..12]), Le32(s[12..16]), Le32(s[16..20]), Le32(s[20..24]))
      else
        (Le16(s[..2]), Le16(s[2..4]), s[4], Le16(s[5..7]), s[7], Le32(s[8..12]));
    match KindOf(flags, extra)
    case None => Err(Malformed)
    case Some(kind) => Ok(ExceptionHandler(kind, tryOffset, tryLength, handlerOffset, handlerLength, flags))
  }

  /** `n` clauses from the front of `s`. */
  function ReadClauses(s: seq<byte>, n: nat, fat: bool): Result<seq<ExceptionHandler>>
    requires n * ClauseSize(fat) <= |s|
    decreases n
  {
    if n == 0 then Ok([])
    else
      var size := ClauseSize(fat);
      assert n * size == size + (n - 1) * size;
      var h :- ReadClause(s[..size], fat);
      var rest :- ReadClauses(s[size..], n - 1, fat);
      Ok([h] + rest)
  }

  predicate Fat(kind: byte) {
    kind / 0x40 % 2 == 1
  }

  predicate More(kind: byte) {
    kind >= 0x80
  }

  predicate IsEh(kind: byte) {
    kind % 2 == 1
  }

  /**
   * The body size of a section that declares `declared` bytes with `remaining` left. The size
   * counts the 4-byte header; a size written without it is recognised by dividing into whole
   * clauses where the size less the header does not.
   */
  function BodySize(eh: bool, fat: bool, declared: nat, remaining: nat, strict: bool): (r: Result<nat>)
    ensures r.Ok? ==> r.value <= remaining
  {
    var clause := ClauseSize(fat);
    var inclusive := if declared >= 4 then declared - 4 else 0;
    var headerless := eh && inclusive % clause != 0 && declared % clause == 0 && declared <= remaining;
    if headerless && strict then Err(Malformed)
    else
      var size := if headerless then declared else inclusive;
      if size <= remaining then Ok(size)
      else if strict then Err(Truncated)
      else Ok(remaining)
  }

  function DeclaredSize(header: seq<byte>): nat
    requires |header| == 4
  {
    if Fat(header[0]) then Le24(header[1..]) else header[1]
  }

  /** What one section adds to the result, from its header and its body. */
  function SectionContent(kind: byte, body: seq<byte>, strict: bool): Result<Sections> {
    if IsEh(kind) then
      var clause := ClauseSize(Fat(kind));
      if |body| % clause != 0 && strict then Err(Malformed)
      else
        WholeClauses(|body|, clause);
        var handlers :- ReadClauses(body, |body| / clause, Fat(kind));
        Ok(Sections(handlers, []))
    else Ok(Sections([], [RawSection(kind, body)]))
  }

  lemma WholeClauses(size: nat, clause: nat)
    requires clause > 0
    ensures size / clause * clause <= size
  {}

  function Join(a: Sections, b: Sections): Sections {
    Sections(a.handlers + b.handlers, a.unknown + b.unknown)
  }

  /** The section at `pos`, after alignment: its kind byte, its content and where it ends. */
  function OneSection(data: seq<byte>, pos: nat, strict: bool): (r: Result<(byte, Sections, nat)>)
    requires pos <= |data|
    ensures r.Ok? ==> pos + 4 <= r.value.2 <= |data|
  {
    var start := pos + Padding(pos, 4);
    if start > |data| then Err(OutOfRange)
    else if start + 4 > |data| then Err(Truncated)
    else
      var header := data[start..start + 4];
      var kind := header[0];
      var size :- BodySize(IsEh(kind), Fat(kind), DeclaredSize(header), |data| - (start + 4), strict);
      var content :- SectionContent(kind, data[start + 4..start + 4 + size], strict);
      Ok((kind, content, start + 4 + size))
  }

  /** The section chain that starts at `pos`, and where it ends. */
  function Chain(data: seq<byte>, pos: nat, strict: bool): (r: Result<(Sections, nat)>)
    requires pos <= |data|
    ensures r.Ok? ==> pos + 4 <= r.value.1 <= |data|
    decreases |data| - pos
  {
    var (kind, first, end) :- OneSection(data, pos, strict);
    if !More(kind) then Ok((first, end))
    else if end == |data| then if strict then Err(Truncated) else Ok((first, end))
    else
      var (rest, last) :- Chain(data, end, strict);
      Ok((Join(first, rest), last))
  }

  // The writer.

  /** A section as a compiler lays it out; `headerless` sections declare a size without the header. */
  datatype Section =
    | Clauses(kind: byte, headerless: bool, clauses: seq<(ExceptionHandler, u32)>)
    | Other(kind: byte, data: seq<byte>)
  {
    /** Bit 6 of the kind byte chooses the wide form. */
    predicate Wide() {
      kind / 0x40 == 1
    }
  }

  /** The last four bytes of a clause: a token, a filter offset, or `filler` where they mean nothing. */
  function Extra(h: ExceptionHandler, filler: u32): u32 {
    match h.kind
    case Catch(token) => token
    case Filter(filterOffset) => filterOffset
    case _ => filler
  }

  function PutClause(h: ExceptionHandler, filler: u32, fat: bool): (s: seq<byte>)
    requires ClauseFits(h, fat)
    ensures |s| == ClauseSize(fat)
  {
    if fat then
      Put32(h.rawFlags) + Put32(h.tryOffset) + Put32(h.tryLength) + Put32(h.handlerOffset)
      + Put32(h.handlerLength) + Put32(Extra(h, filler))
    else
      Put16(h.rawFlags) + Put16(h.tryOffset) + [h.tryLength] + Put16(h.handlerOffset)
      + [h.handlerLength] + Put32(Extra(h, filler))
  }

  /** The three low flag bits of each kind of clause (II.25.4.6). */
  function FlagBits(kind: HandlerKind): byte {
    match kind
    case Catch(_) => 0x00
    case Filter(_) => 0x01
    case Finally => 0x02
    case FaultHandler => 0x04
  }

  predicate ClauseFits(h: ExceptionHandler, fat: bool) {
    && h.rawFlags % 8 == FlagBits(h.kind)
    && (!fat ==>
      && h.rawFlags < 0x1_0000 && h.tryOffset < 0x1_0000 && h.handlerOffset < 0x1_0000
      && h.tryLength < 0x100 && h.handlerLength < 0x100)
  }

  function PutClauses(cs: seq<(ExceptionHandler, u32)>, fat: bool): (s: seq<byte>)
    requires forall c | c in cs :: ClauseFits(c.0, fat)
    ensures |s| == |cs| * ClauseSize(fat)
  {
    if cs == [] then []
    else
      assert |cs| * ClauseSize(fat) == ClauseSize(fat) + (|cs| - 1) * ClauseSize(fat);
      PutClause(cs[0].0, cs[0].1, fat) + PutClauses(cs[1..], fat)
  }

  /** Bit 7 of the kind byte says that another section follows. */
  function SectionKind(s: Section, more: bool): byte
    requires SectionFits(s)
  {
    s.kind + (if more then 0x80 else 0)
  }

  function SectionBody(s: Section): seq<byte>
    requires SectionFits(s)
  {
    match s
    case Clauses(_, _, clauses) => PutClauses(clauses, s.Wide())
    case Other(_, data) => data
  }

  function Declared(s: Section): nat {
    match s
    case Clauses(_, headerless, clauses) => |clauses| * ClauseSize(s.Wide()) + (if headerless then 0 else 4)
    case Other(_, data) => |data| + 4
  }

  /** Bit 0 of the kind byte marks an exception section; the bits between are free. */
  predicate SectionFits(s: Section) {
    && s.kind < 0x80 && Declared(s) < (if s.Wide() then 0x100_0000 else 0x100)
    && match s
       case Clauses(kind, _, clauses) => kind % 2 == 1 && forall c | c in clauses :: ClauseFits(c.0, s.Wide())
       case Other(kind, _) => kind % 2 == 0
  }

  function PutHeader(s: Section, more: bool): (h: seq<byte>)
    requires SectionFits(s)
    ensures |h| == 4
  {
    [SectionKind(s, more)] + (if s.Wide() then Put24(Declared(s)) else [Declared(s), 0, 0])
  }

  function Zeros(n: nat): (s: seq<byte>)
    ensures |s| == n
  {
    seq(n, i => 0)
  }

  /**
   * The chain as written when `pos` bytes precede it: each section aligned to four, `MoreSects` on
   * all but the last, and on the last as well in an `open` chain, which promises one more.
   */
  function PutChain(ss: seq<Section>, pos: nat, open: bool): seq<byte>
    requires forall s | s in ss :: SectionFits(s)
  {
    if ss == [] then []
    else
      var front := Front(ss[0], |ss| > 1 || open, pos);
      front + PutChain(ss[1..], pos + |front|, open)
  }

  /** What the chain should parse to: clauses and unknown sections, each in order. */
  function Meaning(ss: seq<Section>, open: bool): Sections
    requires forall s | s in ss :: SectionFits(s)
  {
    if ss == [] then Sections([], [])
    else Join(SectionMeaning(ss[0], |ss| > 1 || open), Meaning(ss[1..], open))
  }

  function SectionMeaning(s: Section, more: bool): Sections
    requires SectionFits(s)
  {
    match s
    case Clauses(_, _, clauses) => Sections(Handlers(clauses), [])
    case Other(_, data) => Sections([], [RawSection(SectionKind(s, more), data)])
  }

  function Handlers(cs: seq<(ExceptionHandler, u32)>): seq<ExceptionHandler> {
    seq(|cs|, i requires 0 <= i < |cs| => cs[i].0)
  }

  // Round trip.

  lemma KindBits(s: Section, more: bool)
    requires SectionFits(s)
    ensures var kind := SectionKind(s, more);
            (More(kind) <==> more) && (IsEh(kind) <==> s.Clauses?) && (Fat(kind) <==> s.Wide())
  {}

  lemma ReadPutClause(h: ExceptionHandler, filler: u32, fat: bool)
    requires ClauseFits(h, fat)
    ensures ReadClause(PutClause(h, filler, fat), fat) == Ok(h)
  {
    hide Le16, Le32, Put16, Put32;
    Le32Put32(Extra(h, filler));
    if fat {
      Le32Put32(h.rawFlags);
      Le32Put32(h.tryOffset);
      Le32Put32(h.tryLength);
      Le32Put32(h.handlerOffset);
      Le32Put32(h.handlerLength);
      FatFields(Put32(h.rawFlags), Put32(h.tryOffset), Put32(h.tryLength), Put32(h.handlerOffset),
                Put32(h.handlerLength), Put32(Extra(h, filler)));
    } else {
      Le16Put16(h.rawFlags);
      Le16Put16(h.tryOffset);
      Le16Put16(h.handlerOffset);
      SmallFields(Put16(h.rawFlags), Put16(h.tryOffset), h.tryLength, Put16(h.handlerOffset),
                  h.handlerLength, Put32(Extra(h, filler)));
    }
  }

  function ClauseFlags(s: seq<byte>, fat: bool): u32
    requires |s| == ClauseSize(fat)
  {
    if fat then Le32(s[..4]) else Le16(s[..2])
  }

  /**
   * A clause is accepted exactly when its three low flag bits are one of the four codes, and then
   * writing what was read gives its bytes back.
   */
  lemma {:induction false} ReadClauseExact(s: seq<byte>, fat: bool)
    requires |s| == ClauseSize(fat)
    ensures ReadClause(s, fat).Ok? <==> ClauseFlags(s, fat) % 8 in {0, 1, 2, 4}
    ensures ReadClause(s, fat).Err? ==> ReadClause(s, fat).error == Malformed
    ensures ReadClause(s, fat).Ok? ==>
              var h := ReadClause(s, fat).value;
              ClauseFits(h, fat) && PutClause(h, Le32(s[|s| - 4..]), fat) == s
  {
    hide Le16, Le32, Put16, Put32;
    if ReadClause(s, fat).Ok? {
      Put32Le32(s[|s| - 4..]);
      if fat {
        Put32Le32(s[..4]);
        Put32Le32(s[4..8]);
        Put32Le32(s[8..12]);
        Put32Le32(s[12..16]);
        Put32Le32(s[16..20]);
        assert s == s[..4] + s[4..8] + s[8..12] + s[12..16] + s[16..20] + s[20..24];
      } else {
        Put16Le16(s[..2]);
        Put16Le16(s[2..4]);
        Put16Le16(s[5..7]);
        assert s == s[..2] + s[2..4] + [s[4]] + s[5..7] + [s[7]] + s[8..12];
      }
    }
  }

  lemma FatFields(a: seq<byte>, b: seq<byte>, c: seq<byte>, d: seq<byte>, e: seq<byte>, f: seq<byte>)
    requires |a| == |b| == |c| == |d| == |e| == |f| == 4
    ensures var s := a + b + c + d + e + f;
            && s[..4] == a && s[4..8] == b && s[8..12] == c
            && s[12..16] == d && s[16..20] == e && s[20..24] == f
  {
    var s := a + b + c + d + e + f;
    assert s[..4] == a;
    assert s[4..8] == b;
    assert s[8..12] == c;
    assert s[12..16] == d;
    assert s[16..20] == e;
    assert s[20..24] == f;
  }

  lemma SmallFields(a: seq<byte>, b: seq<byte>, c: byte, d: seq<byte>, e: byte, f: seq<byte>)
    requires |a| == |b| == |d| == 2 && |f| == 4
    ensures var s := a + b + [c] + d + [e] + f;
            s[..2] == a && s[2..4] == b && s[4] == c && s[5..7] == d && s[7] == e && s[8..12] == f
  {
    var s := a + b + [c] + d + [e] + f;
    assert s[..2] == a;
    assert s[2..4] == b;
    assert s[5..7] == d;
    assert s[8..12] == f;
  }

  /** The first `m` clauses read back from any `size` bytes of the written ones that hold them. */
  lemma {:induction false} ReadPutClauses(cs: seq<(ExceptionHandler, u32)>, m: nat, size: nat, fat: bool)
    requires (forall c | c in cs :: ClauseFits(c.0, fat)) && m <= |cs|
    requires m * ClauseSize(fat) <= size <= |PutClauses(cs, fat)|
    ensures ReadClauses(PutClauses(cs, fat)[..size], m, fat) == Ok(Handlers(cs[..m]))
  {
    hide ClauseFits, PutClause, ReadClause, ClauseSize;
    var clause := ClauseSize(fat);
    if m == 0 {
    } else {
      assert m * clause == clause + (m - 1) * clause;
      var s := PutClauses(cs, fat)[..size];
      assert s[..clause] == PutClause(cs[0].0, cs[0].1, fat);
      assert s[clause..] == PutClauses(cs[1..], fat)[..size - clause];
      ReadPutClause(cs[0].0, cs[0].1, fat);
      ReadPutClauses(cs[1..], m - 1, size - clause, fat);
      assert Handlers(cs[..m]) == [cs[0].0] + Handlers(cs[1..][..m - 1]);
    }
  }

  /** Both spellings of a section's size give back its body size; only the headerless one needs reinterpreting. */
  lemma SizeRecovered(s: Section, remaining: nat, strict: bool)
    requires SectionFits(s) && |SectionBody(s)| <= remaining
    requires strict ==> !(s.Clauses? && s.headerless && s.clauses != [])
    ensures BodySize(s.Clauses?, s.Wide(), Declared(s), remaining, strict) == Ok(|SectionBody(s)|)
  {
    if s.Clauses? {
      var clause, n := ClauseSize(s.Wide()), |s.clauses|;
      ModUnique(n * clause, clause, n, 0);
      if n > 0 {
        ModUnique(n * clause - 4, clause, n - 1, clause - 4);
      }
    }
  }

  /** A size written with the header is never reinterpreted. */
  lemma ConformingNotReinterpreted(fat: bool, n: nat, remaining: nat, strict: bool)
    requires n * ClauseSize(fat) <= remaining
    ensures BodySize(true, fat, n * ClauseSize(fat) + 4, remaining, strict) == Ok(n * ClauseSize(fat))
  {
    ModUnique(n * ClauseSize(fat), ClauseSize(fat), n, 0);
  }

  lemma HeaderRead(s: Section, more: bool)
    requires SectionFits(s)
    ensures PutHeader(s, more)[0] == SectionKind(s, more) && DeclaredSize(PutHeader(s, more)) == Declared(s)
  {
    hide Put24, Le24;
    var h := PutHeader(s, more);
    KindBits(s, more);
    if s.Wide() {
      Le24Put24(Declared(s));
      assert h[1..] == Put24(Declared(s));
    }
  }

  lemma ContentRead(s: Section, more: bool, strict: bool)
    requires SectionFits(s)
    ensures SectionContent(SectionKind(s, more), SectionBody(s), strict) == Ok(SectionMeaning(s, more))
  {
    hide PutClauses, ReadClauses, Handlers, SectionKind;
    KindBits(s, more);
    if s.Clauses? {
      var clause, n := ClauseSize(s.Wide()), |s.clauses|;
      ModUnique(n * clause, clause, n, 0);
      ReadPutClauses(s.clauses, n, n * clause, s.Wide());
      assert SectionBody(s)[..n * clause] == SectionBody(s) && s.clauses[..n] == s.clauses;
    }
  }

  /** A section written at its aligned position is read back whole. */
  lemma OneStep(data: seq<byte>, pos: nat, s: Section, more: bool, strict: bool)
    requires pos <= |data| && SectionFits(s)
    requires strict ==> !(s.Clauses? && s.headerless && s.clauses != [])
    requires var start := pos + Padding(pos, 4);
             var end := start + 4 + |SectionBody(s)|;
             && end <= |data| && data[start..start + 4] == PutHeader(s, more) && data[start + 4..end] == SectionBody(s)
    ensures OneSection(data, pos, strict)
         == Ok((SectionKind(s, more), SectionMeaning(s, more), pos + Padding(pos, 4) + 4 + |SectionBody(s)|))
  {
    hide BodySize, SectionContent, SectionMeaning, SectionBody, DeclaredSize, PutHeader, SectionKind, SectionFits, Padding, Declared;
    var start := pos + Padding(pos, 4);
    HeaderRead(s, more);
    KindBits(s, more);
    SizeRecovered(s, |data| - (start + 4), strict);
    ContentRead(s, more, strict);
  }

  /** Where the data ends before the header does: beyond the alignment it is out of range, within the header truncated. */
  lemma HeaderMissing(data: seq<byte>, pos: nat, strict: bool)
    requires pos <= |data| < (pos + 3) / 4 * 4 + 4
    ensures OneSection(data, pos, strict) == Err(if |data| < (pos + 3) / 4 * 4 then OutOfRange else Truncated)
  {
    assert pos + Padding(pos, 4) == (pos + 3) / 4 * 4;
  }

  predicate Strictly(ss: seq<Section>) {
    forall s | s in ss :: !(s.Clauses? && s.headerless && s.clauses != [])
  }

  /** The bytes of the first section of a chain, its padding and header included. */
  function Front(s: Section, more: bool, pos: nat): seq<byte>
    requires SectionFits(s)
  {
    Zeros(Padding(pos, 4)) + PutHeader(s, more) + SectionBody(s)
  }

  lemma FrontPlaced(before: seq<byte>, s: Section, more: bool, rest: seq<byte>)
    requires SectionFits(s)
    ensures var data := before + Front(s, more, |before|) + rest;
            var start := |before| + Padding(|before|, 4);
            var end := start + 4 + |SectionBody(s)|;
            && end == |before| + |Front(s, more, |before|)| && end <= |data|
            && data[start..start + 4] == PutHeader(s, more) && data[start + 4..end] == SectionBody(s)
  {
    hide SectionFits, SectionBody, PutHeader, Padding, Zeros;
    var pad := Zeros(Padding(|before|, 4));
    var data := before + Front(s, more, |before|) + rest;
    assert data == (before + pad) + PutHeader(s, more) + (SectionBody(s) + rest);
    assert data == (before + pad + PutHeader(s, more)) + SectionBody(s) + rest;
    Middle(before + pad, PutHeader(s, more), SectionBody(s) + rest);
    Middle(before + pad + PutHeader(s, more), SectionBody(s), rest);
  }

  /** What a chain gives that ends where it says, or that ends with the data though it promises more. */
  function ChainResult(ss: seq<Section>, end: nat, strict: bool, open: bool): Result<(Sections, nat)>
    requires forall s | s in ss :: SectionFits(s)
  {
    if open && strict then Err(Truncated) else Ok((Meaning(ss, open), end))
  }

  /** Once its front and the chain after it read back, so does a chain. */
  lemma ChainStep(data: seq<byte>, ss: seq<Section>, pos: nat, end: nat, last: nat, strict: bool, open: bool)
    requires ss != [] && (forall s | s in ss :: SectionFits(s)) && pos <= |data|
    requires OneSection(data, pos, strict) == Ok((SectionKind(ss[0], |ss| > 1 || open), SectionMeaning(ss[0], |ss| > 1 || open), end))
    requires if |ss| > 1 then end < |data| && Chain(data, end, strict) == ChainResult(ss[1..], last, strict, open)
             else last == end && (open ==> end == |data|)
    ensures Chain(data, pos, strict) == ChainResult(ss, last, strict, open)
  {
    hide OneSection, SectionFits, SectionMeaning, SectionKind, More, Join;
    KindBits(ss[0], |ss| > 1 || open);
    if |ss| == 1 {
      assert Meaning(ss[1..], open) == Sections([], []);
      JoinNothing(SectionMeaning(ss[0], open));
    }
  }

  /**
   * Any non-empty chain parses back to its clauses and unknown sections, in order, and ends
   * where it was written to end: permissively whichever way the sizes are spelled, strictly
   * when they all count the header. A chain that promises one section more than the data holds
   * gives the sections there are, and is refused as truncated by strict parsing.
   */
  lemma {:induction false} ChainRoundTrip(before: seq<byte>, ss: seq<Section>, after: seq<byte>, strict: bool, open: bool)
    requires ss != [] && (forall s | s in ss :: SectionFits(s)) && (strict ==> Strictly(ss)) && (open ==> after == [])
    ensures Chain(before + PutChain(ss, |before|, open) + after, |before|, strict)
         == ChainResult(ss, |before| + |PutChain(ss, |before|, open)|, strict, open)
    decreases ss
  {
    hide SectionFits, SectionBody, PutHeader, SectionMeaning, Padding, OneSection, Front, SectionKind, Chain, ChainResult;
    var s, more, pos := ss[0], |ss| > 1 || open, |before|;
    var front := Front(s, more, pos);
    var tail := PutChain(ss[1..], pos + |front|, open);
    assert PutChain(ss, pos, open) == front + tail;
    var data := before + PutChain(ss, pos, open) + after;
    Regroup(before, front, tail, after);
    FrontPlaced(before, s, more, tail + after);
    OneStep(data, pos, s, more, strict);
    if |ss| > 1 {
      assert forall x | x in ss[1..] :: x in ss;
      NonEmptyChain(ss[1..], pos + |front|, open);
      ChainRoundTrip(before + front, ss[1..], after, strict, open);
    } else {
      assert tail == [];
    }
    ChainStep(data, ss, pos, pos + |front|, pos + |front| + |tail|, strict, open);
  }

  /** What is left of a section whose body is cut after `k` bytes: its whole clauses, or its first bytes. */
  function CutMeaning(s: Section, more: bool, k: nat): Sections
    requires SectionFits(s) && k < |SectionBody(s)|
  {
    match s
    case Clauses(_, _, clauses) =>
      WholeClauses(k, ClauseSize(s.Wide()));
      CutCount(k, ClauseSize(s.Wide()), |clauses|);
      Sections(Handlers(clauses[..k / ClauseSize(s.Wide())]), [])
    case Other(_, data) => Sections([], [RawSection(SectionKind(s, more), data[..k])])
  }

  lemma CutCount(k: nat, clause: nat, n: nat)
    requires k < n * clause
    ensures k / clause < n
  {}

  /**
   * A section whose body the data cuts short: permissive parsing keeps the clauses that are whole,
   * or the bytes that are there; strict parsing refuses it, as truncated when its size is honest.
   */
  lemma {:induction false} CutSection(before: seq<byte>, s: Section, more: bool, k: nat)
    requires SectionFits(s) && k < |SectionBody(s)|
    ensures var data := before + Zeros(Padding(|before|, 4)) + PutHeader(s, more) + SectionBody(s)[..k];
            && OneSection(data, |before|, true).Err?
            && OneSection(data, |before|, false).Ok?
            && OneSection(data, |before|, false).value.1 == CutMeaning(s, more, k)
            && (!(s.Clauses? && s.headerless) ==>
                 OneSection(data, |before|, false).value.2 == |data| && OneSection(data, |before|, true) == Err(Truncated))
  {
    hide BodySize, SectionContent, CutMeaning, SectionBody, DeclaredSize, PutHeader, SectionKind, SectionFits, Padding, Declared, Zeros;
    hide ClauseSize, IsEh, Fat, Section.Wide;
    var data := before + Zeros(Padding(|before|, 4)) + PutHeader(s, more) + SectionBody(s)[..k];
    var size := CutSize(s, k);
    CutPlaced(before + Zeros(Padding(|before|, 4)), PutHeader(s, more), SectionBody(s), k, size);
    HeaderRead(s, more);
    KindBits(s, more);
    CutContent(s, more, k, size);
  }

  lemma CutPlaced(front: seq<byte>, header: seq<byte>, body: seq<byte>, k: nat, size: nat)
    requires |header| == 4 && size <= k <= |body|
    ensures var data := front + header + body[..k];
            && |data| == |front| + 4 + k && data[|front|..|front| + 4] == header
            && data[|front| + 4..|front| + 4 + size] == body[..size]
  {}

  /** The size permissive parsing settles on: what the data holds, unless a headerless size falls short of it. */
  lemma CutSize(s: Section, k: nat) returns (size: nat)
    requires SectionFits(s) && k < |SectionBody(s)|
    ensures BodySize(s.Clauses?, s.Wide(), Declared(s), k, false) == Ok(size)
    ensures size <= k && (!(s.Clauses? && s.headerless) ==> size == k)
    ensures s.Clauses? ==> size / ClauseSize(s.Wide()) == k / ClauseSize(s.Wide())
    ensures var strictly := BodySize(s.Clauses?, s.Wide(), Declared(s), k, true);
            || strictly == Err(Truncated)
            || (strictly == Ok(size) && s.Clauses? && s.headerless && size % ClauseSize(s.Wide()) != 0)
  {
    size := k;
    if s.Clauses? {
      var clause, n := ClauseSize(s.Wide()), |s.clauses|;
      ModUnique(n * clause, clause, n, 0);
      if s.headerless {
        ModUnique(n * clause - 4, clause, n - 1, clause - 4);
        if n * clause - 4 < k {
          size := n * clause - 4;
          ModUnique(k, clause, n - 1, k - (n - 1) * clause);
        }
      }
    }
  }

  lemma CutContent(s: Section, more: bool, k: nat, size: nat)
    requires SectionFits(s) && size <= k < |SectionBody(s)|
    requires s.Clauses? ==> size / ClauseSize(s.Wide()) == k / ClauseSize(s.Wide())
    requires s.Other? ==> size == k
    ensures SectionContent(SectionKind(s, more), SectionBody(s)[..size], false) == Ok(CutMeaning(s, more, k))
    ensures s.Clauses? && size % ClauseSize(s.Wide()) != 0 ==>
              SectionContent(SectionKind(s, more), SectionBody(s)[..size], true) == Err(Malformed)
  {
    hide PutClauses, ReadClauses, Handlers, SectionKind;
    KindBits(s, more);
    if s.Clauses? {
      var clause := ClauseSize(s.Wide());
      WholeClauses(size, clause);
      CutCount(k, clause, |s.clauses|);
      ReadPutClauses(s.clauses, size / clause, size, s.Wide());
    }
  }

  lemma HeaderlessRefused(s: Section, remaining: nat)
    requires SectionFits(s) && s.Clauses? && s.headerless && s.clauses != [] && |SectionBody(s)| <= remaining
    ensures BodySize(true, s.Wide(), Declared(s), remaining, true) == Err(Malformed)
  {
    var clause, n := ClauseSize(s.Wide()), |s.clauses|;
    ModUnique(n * clause, clause, n, 0);
    ModUnique(n * clause - 4, clause, n - 1, clause - 4);
  }

  lemma OneRefused(data: seq<byte>, pos: nat, s: Section, more: bool)
    requires pos <= |data| && SectionFits(s) && s.Clauses? && s.headerless && s.clauses != []
    requires var start := pos + Padding(pos, 4);
             var end := start + 4 + |SectionBody(s)|;
             end <= |data| && data[start..start + 4] == PutHeader(s, more)
    ensures OneSection(data, pos, true) == Err(Malformed)
  {
    hide BodySize, SectionContent, SectionBody, DeclaredSize, PutHeader, SectionKind, SectionFits, Padding, Declared;
    HeaderRead(s, more);
    KindBits(s, more);
    HeaderlessRefused(s, |data| - (pos + Padding(pos, 4) + 4));
  }

  /** Strict parsing refuses every chain in which some exception section's size leaves out the header. */
  lemma {:induction false} StrictRejectsHeaderless(before: seq<byte>, ss: seq<Section>, after: seq<byte>, open: bool)
    requires (forall s | s in ss :: SectionFits(s)) && !Strictly(ss)
    ensures Chain(before + PutChain(ss, |before|, open) + after, |before|, true) == Err(Malformed)
    decreases ss
  {
    hide SectionFits, SectionBody, PutHeader, SectionMeaning, Padding, OneSection, Front, SectionKind, More, Join;
    var s, more, pos := ss[0], |ss| > 1 || open, |before|;
    var front := Front(s, more, pos);
    var tail := PutChain(ss[1..], pos + |front|, open);
    assert PutChain(ss, pos, open) == front + tail;
    var data := before + PutChain(ss, pos, open) + after;
    Regroup(before, front, tail, after);
    FrontPlaced(before, s, more, tail + after);
    if s.Clauses? && s.headerless && s.clauses != [] {
      OneRefused(data, pos, s, more);
    } else {
      assert !Strictly(ss[1..]) && forall x | x in ss[1..] :: x in ss;
      OneStep(data, pos, s, more, true);
      KindBits(s, more);
      NonEmptyChain(ss[1..], pos + |front|, open);
      StrictRejectsHeaderless(before + front, ss[1..], after, open);
    }
  }

  lemma Regroup(a: seq<byte>, b: seq<byte>, c: seq<byte>, d: seq<byte>)
    ensures a + (b + c) + d == a + b + (c + d) == (a + b) + c + d
  {}

  lemma Middle(a: seq<byte>, b: seq<byte>, c: seq<byte>)
    ensures (a + b + c)[|a|..|a| + |b|] == b
  {}

  lemma JoinNothing(a: Sections)
    ensures Join(a, Sections([], [])) == a
  {}

  lemma NonEmptyChain(ss: seq<Section>, pos: nat, open: bool)
    requires ss != [] && (forall s | s in ss :: SectionFits(s))
    ensures |PutChain(ss, pos, open)| >= 4
  {}

  // On any bytes.

  /** Strict parsing accepts less, and agrees with permissive parsing where it accepts. */
  lemma {:induction false} StrictRefinesPermissive(data: seq<byte>, pos: nat)
    requires pos <= |data| && Chain(data, pos, true).Ok?
    ensures Chain(data, pos, false) == Chain(data, pos, true)
    decreases |data| - pos
  {
    hide OneSection, Join;
    OneStrict(data, pos);
    var (kind, _, end) := OneSection(data, pos, true).value;
    if More(kind) && end < |data| {
      StrictRefinesPermissive(data, end);
    }
  }

  lemma OneStrict(data: seq<byte>, pos: nat)
    requires pos <= |data|
    ensures OneSection(data, pos, true).Ok? ==> OneSection(data, pos, false) == OneSection(data, pos, true)
  {
    hide Padding, DeclaredSize, BodySize, SectionContent;
    var start := pos + Padding(pos, 4);
    if start + 4 <= |data| {
      var header := data[start..start + 4];
      var kind := header[0];
      var size := BodySize(IsEh(kind), Fat(kind), DeclaredSize(header), |data| - (start + 4), true);
      BodySizeStrict(IsEh(kind), Fat(kind), DeclaredSize(header), |data| - (start + 4));
      if size.Ok? {
        ContentStrict(kind, data[start + 4..start + 4 + size.value]);
      }
    }
  }

  lemma BodySizeStrict(eh: bool, fat: bool, declared: nat, remaining: nat)
    ensures BodySize(eh, fat, declared, remaining, true).Ok? ==>
              BodySize(eh, fat, declared, remaining, false) == BodySize(eh, fat, declared, remaining, true)
  {}

  lemma ContentStrict(kind: byte, body: seq<byte>)
    ensures SectionContent(kind, body, true).Ok? ==>
              SectionContent(kind, body, false) == SectionContent(kind, body, true)
  {}

  // The parser.

  function JoinAll(a: Sections, r: Result<(Sections, nat)>): Result<(Sections, nat)> {
    match r
    case Ok(v) => Ok((Join(a, v.0), v.1))
    case Err(e) => Err(e)
  }

  /** `parse_sections`: the loop over the chain, driving a cursor. */
  method ParseSections(r: Reader, strict: bool) returns (out: Result<Sections>)
    requires r.Valid()
    modifies r
    ensures r.Valid()
    ensures match Chain(r.data, old(r.pos), strict)
            case Ok(v) => out == Ok(v.0) && r.pos == v.1
            case Err(e) => out == Err(e)
  {
    hide OneSection, Join;
    var found := Sections([], []);
    ghost var goal := Chain(r.data, r.pos, strict);
    JoinAllNothing(goal);
    while true
      invariant r.Valid()
      invariant goal == JoinAll(found, Chain(r.data, r.pos, strict))
      decreases |r.data| - r.pos
    {
      var section :- ParseSection(r, strict);
      if !More(section.0) {
        return Ok(Join(found, section.1));
      }
      if r.pos == |r.data| {
        if strict {
          return Err(Truncated);
        }
        return Ok(Join(found, section.1));
      }
      JoinAllAssoc(found, section.1, Chain(r.data, r.pos, strict));
      found := Join(found, section.1);
    }
  }

  /** The body of that loop: one aligned section, its kind byte and its content. */
  method ParseSection(r: Reader, strict: bool) returns (out: Result<(byte, Sections)>)
    requires r.Valid()
    modifies r
    ensures r.Valid()
    ensures match OneSection(r.data, old(r.pos), strict)
            case Ok(v) => out == Ok((v.0, v.1)) && r.pos == v.2
            case Err(e) => out == Err(e)
  {
    hide BodySize, SectionContent, DeclaredSize, Fat, IsEh, Padding;
    var _ :- r.AlignTo(0, 4);
    var header :- ReadHeader(r);
    var content :- ReadBody(r, header.0, header.1, strict);
    return Ok((header.0, content));
  }

  /** The body a section's size comes to, and what it holds. */
  method ReadBody(r: Reader, kind: byte, declared: nat, strict: bool) returns (out: Result<Sections>)
    requires r.Valid()
    modifies r
    ensures r.Valid()
    ensures match BodySize(IsEh(kind), Fat(kind), declared, |r.data| - old(r.pos), strict)
            case Err(e) => out == Err(e)
            case Ok(size) =>
              && out == SectionContent(kind, r.data[old(r.pos)..old(r.pos) + size], strict)
              && r.pos == old(r.pos) + size
  {
    hide BodySize, SectionContent, Fat, IsEh;
    ghost var start := r.pos;
    var size :- BodySize(IsEh(kind), Fat(kind), declared, r.Remaining(), strict);
    Within(r.data, start, size);
    var body := r.Take(size);
    out := ReadSection(kind, body.value, strict);
  }

  lemma Within(data: seq<byte>, at: nat, size: nat)
    requires at + size <= |data|
    ensures data[at..][..size] == data[at..at + size]
  {}

  /** The four header bytes: the kind, and the size in one byte or three. */
  method ReadHeader(r: Reader) returns (out: Result<(byte, nat)>)
    requires r.Valid()
    modifies r
    ensures r.Valid()
    ensures if old(r.pos) + 4 <= |r.data|
            then
              var header := r.data[old(r.pos)..old(r.pos) + 4];
              out == Ok((header[0], DeclaredSize(header))) && r.pos == old(r.pos) + 4
            else out == Err(Truncated)
  {
    hide Le24;
    ghost var start := r.pos;
    var kind :- r.U8();
    if Fat(kind) {
      var b :- r.Take(3);
      assert b == r.data[start + 1..start + 4] == r.data[start..start + 4][1..];
      return Ok((kind, Le24(b)));
    } else {
      var b :- r.U8();
      var _ :- r.U16();
      assert b == r.data[start + 1] == r.data[start..start + 4][1];
      return Ok((kind, b));
    }
  }

  lemma JoinAllNothing(r: Result<(Sections, nat)>)
    ensures JoinAll(Sections([], []), r) == r
  {
    if r.Ok? {
      assert [] + r.value.0.handlers == r.value.0.handlers;
      assert [] + r.value.0.unknown == r.value.0.unknown;
    }
  }

  lemma JoinAllAssoc(a: Sections, b: Sections, r: Result<(Sections, nat)>)
    ensures JoinAll(a, JoinAll(b, r)) == JoinAll(Join(a, b), r)
  {
    if r.Ok? {
      assert a.handlers + (b.handlers + r.value.0.handlers) == a.handlers + b.handlers + r.value.0.handlers;
      assert a.unknown + (b.unknown + r.value.0.unknown) == a.unknown + b.unknown + r.value.0.unknown;
    }
  }

  /** The loop over a section's clauses, or the raw section. */
  method ReadSection(kind: byte, body: seq<byte>, strict: bool) returns (out: Result<Sections>)
    ensures out == SectionContent(kind, body, strict)
  {
    hide ReadClause;
    if !IsEh(kind) {
      return Ok(Sections([], [RawSection(kind, body)]));
    }
    var fat := Fat(kind);
    var clause := ClauseSize(fat);
    if |body| % clause != 0 && strict {
      return Err(Malformed);
    }
    var count := |body| / clause;
    WholeClauses(|body|, clause);
    var handlers: seq<ExceptionHandler> := [];
    ghost var goal := ReadClauses(body, count, fat);
    ghost var rest := body;
    OntoNone(goal);
    for i := 0 to count
      invariant |rest| == |body| - i * clause && (count - i) * clause <= |rest| && rest == body[i * clause..]
      invariant goal == Onto(handlers, ReadClauses(rest, count - i, fat))
    {
      ClauseInside(i, count, clause, |body|);
      var chunk := body[i * clause..(i + 1) * clause];
      NextClause(rest, body, i * clause, clause);
      var h :- ReadClause(chunk, fat);
      OntoOne(handlers, h, ReadClauses(rest[clause..], count - i - 1, fat));
      handlers := handlers + [h];
      rest := rest[clause..];
    }
    assert handlers + [] == handlers;
    return Ok(Sections(handlers, []));
  }

  lemma NextClause(rest: seq<byte>, body: seq<byte>, at: nat, clause: nat)
    requires at + clause <= |body| && rest == body[at..]
    ensures body[at..at + clause] == rest[..clause] && rest[clause..] == body[at + clause..]
  {}

  lemma ClauseInside(i: nat, count: nat, clause: nat, size: nat)
    requires i < count && count * clause <= size
    ensures (i + 1) * clause == i * clause + clause <= size
    ensures (count - i) * clause == clause + (count - (i + 1)) * clause
    ensures i * clause + (count - i) * clause == count * clause
  {
    assert (i + 1) * clause == i * clause + clause;
    assert (count - i) * clause == count * clause - i * clause;
    assert (count - (i + 1)) * clause == count * clause - (i + 1) * clause;
    if clause > 0 {
      MulMono(clause, i + 1, count);
    }
  }
}
