/**
 * Exception clauses and their validation (src/body.rs, section II.25.4.6 of ECMA-335):
 * `validate_handlers` computes with saturating 32-bit ends, clause by clause and pair by pair;
 * what it accepts is stated in unbounded arithmetic.
 */
module BodyHandlers {
  import opened Wrappers
  import opened Bytes
  import opened Tokens

  datatype HandlerKind = Catch(token: Token) | Filter(filterOffset: u32) | Finally | FaultHandler

  datatype ExceptionHandler = ExceptionHandler(
    kind: HandlerKind, tryOffset: u32, tryLength: u32, handlerOffset: u32, handlerLength: u32, rawFlags: u32)

  const U32_MAX: u32 := 0xFFFF_FFFF

  function SaturatingAdd(a: u32, b: u32): u32 {
    if a + b <= 0xFFFF_FFFF then a + b else U32_MAX
  }

  function TryEnd(h: ExceptionHandler): u32 {
    SaturatingAdd(h.tryOffset, h.tryLength)
  }

  function HandlerEnd(h: ExceptionHandler): u32 {
    SaturatingAdd(h.handlerOffset, h.handlerLength)
  }

  /** Two half-open ranges overlap and neither contains the other. */
  predicate PartiallyOverlaps(aStart: nat, aEnd: nat, bStart: nat, bEnd: nat) {
    && aStart < bEnd && bStart < aEnd
    && !(bStart <= aStart && aEnd <= bEnd)
    && !(aStart <= bStart && bEnd <= aEnd)
  }

  // The order of the checks, and the error each gives.

  function CheckClause(codeLen: nat, h: ExceptionHandler): Result<()> {
    if h.tryOffset + h.tryLength > codeLen || h.handlerOffset + h.handlerLength > codeLen then Err(OutOfRange)
    else if h.tryLength == 0 || h.handlerLength == 0 then Err(Malformed)
    else if h.handlerOffset < TryEnd(h) && HandlerEnd(h) > h.tryOffset then Err(Malformed)
    else if h.kind.Filter? && h.kind.filterOffset >= codeLen then Err(OutOfRange)
    else if h.kind.Filter? && h.kind.filterOffset >= h.handlerOffset then Err(Malformed)
    else Ok(())
  }

  predicate PairClashes(h: ExceptionHandler, other: ExceptionHandler) {
    || PartiallyOverlaps(h.tryOffset, TryEnd(h), other.tryOffset, TryEnd(other))
    || PartiallyOverlaps(h.handlerOffset, HandlerEnd(h), other.handlerOffset, HandlerEnd(other))
  }

  /** The first fault at or after clause `i`, scanning as the original does. */
  function Verdict(codeLen: nat, hs: seq<ExceptionHandler>, i: nat): Result<()>
    requires i <= |hs|
    decreases |hs| - i
  {
    if i == |hs| then Ok(())
    else if CheckClause(codeLen, hs[i]).Err? then CheckClause(codeLen, hs[i])
    else if exists j | 0 <= j < |hs| :: j != i && PairClashes(hs[i], hs[j]) then Err(Malformed)
    else Verdict(codeLen, hs, i + 1)
  }

  method ValidateHandlers(codeLen: nat, hs: seq<ExceptionHandler>) returns (r: Result<()>)
    ensures r == Verdict(codeLen, hs, 0)
  {
    hide CheckClause, PairClashes;
    for i := 0 to |hs|
      invariant Verdict(codeLen, hs, 0) == Verdict(codeLen, hs, i)
    {
      var _ :- CheckClause(codeLen, hs[i]);
      for j := 0 to |hs|
        invariant forall k | 0 <= k < j :: k == i || !PairClashes(hs[i], hs[k])
      {
        if i != j && PairClashes(hs[i], hs[j]) {
          return Err(Malformed);
        }
      }
    }
    return Ok(());
  }

  // What acceptance means, in unbounded arithmetic.

  predicate NestedOrDisjoint(aStart: nat, aLen: nat, bStart: nat, bLen: nat) {
    || aStart + aLen <= bStart || bStart + bLen <= aStart
    || (bStart <= aStart && aStart + aLen <= bStart + bLen)
    || (aStart <= bStart && bStart + bLen <= aStart + aLen)
  }

  predicate ClauseLegal(codeLen: nat, h: ExceptionHandler) {
    && h.tryLength > 0 && h.tryOffset + h.tryLength <= codeLen
    && h.handlerLength > 0 && h.handlerOffset + h.handlerLength <= codeLen
    && (h.tryOffset + h.tryLength <= h.handlerOffset || h.handlerOffset + h.handlerLength <= h.tryOffset)
    && (h.kind.Filter? ==> h.kind.filterOffset < h.handlerOffset)
  }

  predicate PairLegal(h: ExceptionHandler, other: ExceptionHandler) {
    && NestedOrDisjoint(h.tryOffset, h.tryLength, other.tryOffset, other.tryLength)
    && NestedOrDisjoint(h.handlerOffset, h.handlerLength, other.handlerOffset, other.handlerLength)
  }

  ghost predicate TableLegal(codeLen: nat, hs: seq<ExceptionHandler>) {
    && (forall i | 0 <= i < |hs| :: ClauseLegal(codeLen, hs[i]))
    && (forall i, j | 0 <= i < |hs| && 0 <= j < |hs| && i != j :: PairLegal(hs[i], hs[j]))
  }

  lemma ClauseExact(codeLen: nat, h: ExceptionHandler)
    requires codeLen <= 0xFFFF_FFFF
    ensures CheckClause(codeLen, h).Ok? <==> ClauseLegal(codeLen, h)
  {}

  lemma PairExact(codeLen: nat, h: ExceptionHandler, other: ExceptionHandler)
    requires codeLen <= 0xFFFF_FFFF && ClauseLegal(codeLen, h) && ClauseLegal(codeLen, other)
    ensures PairClashes(h, other) <==> !PairLegal(h, other)
  {}

  /** The part of a clause that leaves the code: a range, or in a clause whose ranges are sound the filter. */
  predicate LeavesCode(codeLen: nat, h: ExceptionHandler) {
    || h.tryOffset + h.tryLength > codeLen || h.handlerOffset + h.handlerLength > codeLen
    || (h.kind.Filter? && h.kind.filterOffset >= codeLen && ClauseLegal(codeLen, h.(kind := Finally)))
  }

  /**
   * A refusal is about the first clause that is not legal by itself or clashes with another, and says
   * out of range exactly when that clause leaves the code.
   */
  lemma {:induction false} RefusalExact(codeLen: nat, hs: seq<ExceptionHandler>, from: nat) returns (i: nat)
    requires codeLen <= 0xFFFF_FFFF && from <= |hs| && Verdict(codeLen, hs, from).Err?
    ensures from <= i < |hs|
    ensures forall k | from <= k < i :: ClauseLegal(codeLen, hs[k]) && forall j | 0 <= j < |hs| :: j == k || !PairClashes(hs[k], hs[j])
    ensures !ClauseLegal(codeLen, hs[i]) || exists j | 0 <= j < |hs| :: j != i && PairClashes(hs[i], hs[j])
    ensures Verdict(codeLen, hs, from) == Err(if LeavesCode(codeLen, hs[i]) then OutOfRange else Malformed)
    decreases |hs| - from
  {
    hide PairClashes;
    ClauseExact(codeLen, hs[from]);
    ClauseFault(codeLen, hs[from]);
    hide CheckClause, ClauseLegal, LeavesCode;
    if CheckClause(codeLen, hs[from]).Err? || exists j | 0 <= j < |hs| :: j != from && PairClashes(hs[from], hs[j]) {
      i := from;
    } else {
      i := RefusalExact(codeLen, hs, from + 1);
    }
  }

  lemma ClauseFault(codeLen: nat, h: ExceptionHandler)
    requires codeLen <= 0xFFFF_FFFF
    ensures CheckClause(codeLen, h) ==
            if ClauseLegal(codeLen, h) then Ok(()) else Err(if LeavesCode(codeLen, h) then OutOfRange else Malformed)
    ensures ClauseLegal(codeLen, h) ==> !LeavesCode(codeLen, h)
  {}

  lemma {:induction false} VerdictScan(codeLen: nat, hs: seq<ExceptionHandler>, i: nat)
    requires i <= |hs|
    ensures Verdict(codeLen, hs, i).Ok? <==>
            forall k | i <= k < |hs| ::
              CheckClause(codeLen, hs[k]).Ok? && forall j | 0 <= j < |hs| :: j == k || !PairClashes(hs[k], hs[j])
    decreases |hs| - i
  {
    hide CheckClause, PairClashes;
    if i < |hs| {
      VerdictScan(codeLen, hs, i + 1);
    }
  }

  /**
   * Validation is exact: for code of at most 2^32 - 1 bytes, which is all a body header can
   * declare, it accepts precisely the legal tables; saturation never changes the verdict.
   */
  lemma ValidationExact(codeLen: nat, hs: seq<ExceptionHandler>)
    requires codeLen <= 0xFFFF_FFFF
    ensures Verdict(codeLen, hs, 0).Ok? <==> TableLegal(codeLen, hs)
  {
    hide CheckClause, PairClashes, ClauseLegal, PairLegal;
    VerdictScan(codeLen, hs, 0);
    forall i | 0 <= i < |hs| ensures CheckClause(codeLen, hs[i]).Ok? <==> ClauseLegal(codeLen, hs[i]) {
      ClauseExact(codeLen, hs[i]);
    }
    if forall i | 0 <= i < |hs| :: ClauseLegal(codeLen, hs[i]) {
      forall i, j | 0 <= i < |hs| && 0 <= j < |hs|
        ensures PairClashes(hs[i], hs[j]) <==> !PairLegal(hs[i], hs[j])
      {
        PairExact(codeLen, hs[i], hs[j]);
      }
    }
  }

  // A legal table is a laminar family: the try blocks around any point form a chain.

  predicate Covers(h: ExceptionHandler, x: nat) {
    h.tryOffset <= x < h.tryOffset + h.tryLength
  }

  predicate TryWithin(a: ExceptionHandler, b: ExceptionHandler) {
    b.tryOffset <= a.tryOffset && a.tryOffset + a.tryLength <= b.tryOffset + b.tryLength
  }

  lemma CoveringTriesNest(codeLen: nat, hs: seq<ExceptionHandler>, x: nat, i: nat, j: nat)
    requires TableLegal(codeLen, hs) && i < |hs| && j < |hs| && Covers(hs[i], x) && Covers(hs[j], x)
    ensures TryWithin(hs[i], hs[j]) || TryWithin(hs[j], hs[i])
  {
    if i != j {
      assert PairLegal(hs[i], hs[j]);
    }
  }

  /** Among the first `n` clauses, the innermost try block around `x`, inside every other one around `x`. */
  lemma {:induction false} InnermostTry(codeLen: nat, hs: seq<ExceptionHandler>, x: nat, n: nat) returns (inner: nat)
    requires TableLegal(codeLen, hs) && n <= |hs|
    requires exists i :: 0 <= i < n && Covers(hs[i], x)
    ensures inner < n && Covers(hs[inner], x)
    ensures forall j | 0 <= j < n && Covers(hs[j], x) :: TryWithin(hs[inner], hs[j])
    decreases n
  {
    hide TableLegal, Covers, TryWithin;
    var last := n - 1;
    if exists i :: 0 <= i < last && Covers(hs[i], x) {
      inner := InnermostTry(codeLen, hs, x, last);
      if Covers(hs[last], x) {
        CoveringTriesNest(codeLen, hs, x, inner, last);
        if !TryWithin(hs[inner], hs[last]) {
          forall j | 0 <= j < last && Covers(hs[j], x) ensures TryWithin(hs[last], hs[j]) {
            TryWithinTrans(hs[last], hs[inner], hs[j]);
          }
          inner := last;
          TryWithinRefl(hs[last]);
        }
      }
    } else {
      inner := last;
      TryWithinRefl(hs[last]);
    }
  }

  lemma TryWithinTrans(a: ExceptionHandler, b: ExceptionHandler, c: ExceptionHandler)
    requires TryWithin(a, b) && TryWithin(b, c)
    ensures TryWithin(a, c)
  {}

  lemma TryWithinRefl(a: ExceptionHandler)
    ensures TryWithin(a, a)
  {}

  /**
   * What validation does not look at: a clause's handler may straddle another clause's try
   * block, and a filter need only start before its handler.
   */
  lemma NotCompared()
    ensures var a := ExceptionHandler(Finally, 0, 4, 10, 4, 2);
            var b := ExceptionHandler(Filter(0), 12, 8, 30, 4, 1);
            PartiallyOverlaps(a.handlerOffset, HandlerEnd(a), b.tryOffset, TryEnd(b))
            && Verdict(40, [a, b], 0).Ok?
  {
    var a := ExceptionHandler(Finally, 0, 4, 10, 4, 2);
    var b := ExceptionHandler(Filter(0), 12, 8, 30, 4, 1);
    ValidationExact(40, [a, b]);
    assert ClauseLegal(40, a) && ClauseLegal(40, b) && PairLegal(a, b) && PairLegal(b, a);
  }
}
