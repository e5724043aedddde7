/**
 * Prefix folding (src/il/mod.rs, `FoldedIter`, `apply_prefix` and `check_prefix_targets`): the
 * iterator is a state machine over the raw stream; the specification groups the raw stream into
 * maximal prefix runs and their targets, and judges each run as a set of prefixes.
 */
module IlFold {
  import opened Wrappers
  import opened Bytes
  import opened Tokens
  import opened IlDecode
  import opened IlOpcodes
  import opened IlStream

  datatype NoChecks = NoChecks(typecheck: bool, rangecheck: bool, nullcheck: bool)

  datatype Prefixes = Prefixes(
    constrained: Option<Token>, volatile: bool, unaligned: Option<byte>, tail: bool, readonly: bool, no: NoChecks)

  datatype Folded = Folded(instruction: Instruction, prefixes: Prefixes, firstOffset: u32)

  const NO_CHECKS := NoChecks(false, false, false)
  const NO_PREFIXES := Prefixes(None, false, None, false, false, NO_CHECKS)

  function NoChecksOf(bits: byte): NoChecks {
    NoChecks(bits % 2 == 1, bits / 2 % 2 == 1, bits / 4 % 2 == 1)
  }

  // The prefix operands: a token for `constrained.`, a byte for `unaligned.` and `no.`.

  function TokenOperand(i: Instruction): Option<Token> {
    match i.operand
    case Method(t) => Some(t)
    case Field(t) => Some(t)
    case Type(t) => Some(t)
    case Tok(t) => Some(t)
    case Sig(t) => Some(t)
    case _ => None
  }

  function ByteOperand(i: Instruction): byte {
    match i.operand
    case I8(v) => v % 0x100
    case _ => 0
  }

  /** `apply_prefix`: the record with one more prefix, or a structural error. */
  function ApplyPrefix(p: Prefixes, i: Instruction): Result<Prefixes> {
    if i.opcode == CONSTRAINED then
      if p.constrained.Some? then Err(Malformed) else Ok(p.(constrained := TokenOperand(i)))
    else if i.opcode == VOLATILE then
      if p.volatile then Err(Malformed) else Ok(p.(volatile := true))
    else if i.opcode == UNALIGNED then
      if p.unaligned.Some? then Err(Malformed) else Ok(p.(unaligned := Some(ByteOperand(i))))
    else if i.opcode == TAIL then
      if p.tail then Err(Malformed) else Ok(p.(tail := true))
    else if i.opcode == READONLY then
      if p.readonly then Err(Malformed) else Ok(p.(readonly := true))
    else if i.opcode == NO then
      if p.no != NO_CHECKS then Err(Malformed)
      else if NoChecksOf(ByteOperand(i)) == NO_CHECKS then Err(Malformed)
      else Ok(p.(no := NoChecksOf(ByteOperand(i))))
    else Err(Unsupported)
  }

  // III.2.1 to III.2.6: which instructions each prefix may precede.

  predicate MemoryAccess(op: OpCode) {
    match op
    case One(b) => 0x46 <= b <= 0x57 || b == 0xDF || b == 0x7B || b == 0x7D || b == 0x71 || b == 0x81
    case Two(b) => b == 0x17 || b == 0x18
  }

  predicate AllowsNo(op: OpCode) {
    match op
    case One(b) => 0x8E <= b <= 0xA5 || 0x74 <= b <= 0x75 || b == 0x79 || b == 0x7B || b == 0x7D || b == 0x6F
    case Two(b) => b == 0x07
  }

  predicate AllowsVolatile(op: OpCode) {
    MemoryAccess(op) || op == One(0x7E) || op == One(0x80)
  }

  predicate AllowsUnaligned(op: OpCode) {
    MemoryAccess(op)
  }

  /** `check_prefix_targets`: the whole record against the target. */
  function CheckTargets(p: Prefixes, target: OpCode): Result<()> {
    if p.constrained.Some? && target != CALLVIRT && target != CALL && target != LDFTN then Err(InvalidPrefixTarget)
    else if p.tail && target != CALL && target != CALLI && target != CALLVIRT then Err(InvalidPrefixTarget)
    else if p.readonly && target != LDELEMA && target != CALL && target != CALLVIRT then Err(InvalidPrefixTarget)
    else if p.volatile && !AllowsVolatile(target) then Err(InvalidPrefixTarget)
    else if p.unaligned.Some? && !AllowsUnaligned(target) then Err(InvalidPrefixTarget)
    else if p.no != NO_CHECKS && !AllowsNo(target) then Err(InvalidPrefixTarget)
    else Ok(())
  }

  // The specification: a run is judged prefix by prefix, without regard to order.

  /** The loads and stores through an address (III.2.5): `ldind`, `stind`, fields, objects and blocks. */
  function AddressCodes(): set<nat> {
    {0x46, 0x47, 0x48, 0x49, 0x4A, 0x4B, 0x4C, 0x4D, 0x4E, 0x4F, 0x50, 0x51, 0x52, 0x53, 0x54, 0x55, 0x56, 0x57, 0xDF,
     0x71, 0x7B, 0x7D, 0x81, 0xFE17, 0xFE18}
  }

  /** What has a type, range or null check to suppress (III.2.2). */
  function CheckedCodes(): set<nat> {
    {0x6F, 0x74, 0x75, 0x79, 0x7B, 0x7D, 0x8E, 0x8F, 0x90, 0x91, 0x92, 0x93, 0x94, 0x95, 0x96, 0x97, 0x98, 0x99, 0x9A,
     0x9B, 0x9C, 0x9D, 0x9E, 0x9F, 0xA0, 0xA1, 0xA2, 0xA3, 0xA4, 0xA5, 0xFE07}
  }

  /** The encodings each prefix may precede. */
  function TargetCodes(prefix: OpCode): set<nat> {
    if prefix == CONSTRAINED then {0x28, 0x6F, 0xFE06}
    else if prefix == TAIL then {0x28, 0x29, 0x6F}
    else if prefix == READONLY then {0x28, 0x6F, 0x8F}
    else if prefix == VOLATILE then AddressCodes() + {0x7E, 0x80}
    else if prefix == UNALIGNED then AddressCodes()
    else CheckedCodes()
  }

  predicate Allows(prefix: OpCode, target: OpCode) {
    Code(target) in TargetCodes(prefix)
  }

  /** The three predicates of the code are membership in these lists. */
  lemma {:induction false} TargetsListed(target: OpCode)
    ensures AllowsVolatile(target) <==> Code(target) in AddressCodes() + {0x7E, 0x80}
    ensures AllowsUnaligned(target) <==> Code(target) in AddressCodes()
    ensures AllowsNo(target) <==> Code(target) in CheckedCodes()
  {
    hide AllowsNo, CheckedCodes;
    CheckedListed(target);
  }

  lemma CheckedListed(target: OpCode)
    ensures AllowsNo(target) <==> Code(target) in CheckedCodes()
  {}

  /** A prefix instruction as the decoder yields it. */
  predicate PrefixInstruction(i: Instruction) {
    && IsPrefix(i.opcode)
    && (i.opcode == CONSTRAINED ==> i.operand.Type?)
    && (i.opcode == UNALIGNED || i.opcode == NO ==> i.operand.I8?)
  }

  predicate Suppresses(i: Instruction) {
    i.opcode == NO ==> ByteOperand(i) % 8 != 0
  }

  /** No prefix kind occurs twice, and no `no.` suppresses nothing. */
  ghost predicate RunLegal(run: seq<Instruction>) {
    && (forall i, j | 0 <= i < j < |run| :: run[i].opcode != run[j].opcode)
    && (forall i | 0 <= i < |run| :: Suppresses(run[i]))
  }

  ghost predicate TargetLegal(run: seq<Instruction>, target: OpCode) {
    forall i | 0 <= i < |run| :: Allows(run[i].opcode, target)
  }

  /** The checks a mask suppresses: bit 0 the type check, bit 1 the range check, bit 2 the null check. */
  function Suppressed(mask: byte): NoChecks {
    NoChecks(mask % 8 in {1, 3, 5, 7}, mask % 8 in {2, 3, 6, 7}, mask % 8 in {4, 5, 6, 7})
  }

  lemma MaskBits(mask: byte)
    ensures NoChecksOf(mask) == Suppressed(mask)
    ensures Suppressed(mask) == NO_CHECKS <==> mask % 8 == 0
  {}

  /** The instruction of the run with opcode `op`, if any. */
  function Find(run: seq<Instruction>, op: OpCode): Option<Instruction> {
    if run == [] then None
    else if run[0].opcode == op then Some(run[0])
    else Find(run[1..], op)
  }

  function Summary(run: seq<Instruction>): Prefixes {
    Prefixes(
      if Find(run, CONSTRAINED).Some? then TokenOperand(Find(run, CONSTRAINED).value) else None,
      Find(run, VOLATILE).Some?,
      if Find(run, UNALIGNED).Some? then Some(ByteOperand(Find(run, UNALIGNED).value)) else None,
      Find(run, TAIL).Some?,
      Find(run, READONLY).Some?,
      if Find(run, NO).Some? then Suppressed(ByteOperand(Find(run, NO).value)) else NO_CHECKS)
  }

  /** The maximal run of prefixes at the front of the raw stream, and what comes after it. */
  function PrefixRun(raw: Stream<Instruction>): seq<Instruction> {
    match raw
    case Item(i, tail) => if IsPrefix(i.opcode) then [i] + PrefixRun(tail) else []
    case _ => []
  }

  function AfterRun(raw: Stream<Instruction>): Stream<Instruction> {
    match raw
    case Item(i, tail) => if IsPrefix(i.opcode) then AfterRun(tail) else raw
    case _ => raw
  }

  function Length<T>(s: Stream<T>): nat {
    match s
    case Item(_, tail) => 1 + Length(tail)
    case _ => 0
  }

  lemma {:induction false} AfterRunLength(raw: Stream<Instruction>)
    ensures Length(raw) == |PrefixRun(raw)| + Length(AfterRun(raw))
  {
    if raw.Item? && IsPrefix(raw.head.opcode) {
      AfterRunLength(raw.tail);
    }
  }

  /** The raw stream grouped into maximal prefix runs plus their targets, up to the first fault. */
  ghost function Group(raw: Stream<Instruction>): Stream<Folded>
    decreases Length(raw)
  {
    var run := PrefixRun(raw);
    if !RunLegal(run) then Fault(Malformed)
    else
      match AfterRun(raw)
      case End => if run == [] then End else Fault(InvalidPrefixTarget)
      case Fault(e) => Fault(e)
      case Item(target, tail) =>
        if !TargetLegal(run, target.opcode) then Fault(InvalidPrefixTarget)
        else
          AfterRunLength(raw);
          Item(Folded(target, Summary(run), if run == [] then target.offset else run[0].offset), Group(tail))
  }

  // Finding a prefix in a run.

  lemma {:induction false} FindMeans(run: seq<Instruction>, op: OpCode)
    ensures Find(run, op).Some? ==> Find(run, op).value in run && Find(run, op).value.opcode == op
    ensures Find(run, op).None? ==> forall i | i in run :: i.opcode != op
  {
    if run != [] && run[0].opcode != op {
      FindMeans(run[1..], op);
      assert forall i | i in run :: i == run[0] || i in run[1..];
    }
  }

  lemma {:induction false} FindAppend(run: seq<Instruction>, x: Instruction, op: OpCode)
    ensures Find(run + [x], op) == if Find(run, op).Some? then Find(run, op) else if x.opcode == op then Some(x) else None
  {
    if run == [] {
      assert run + [x] == [x];
    } else if run[0].opcode != op {
      assert (run + [x])[1..] == run[1..] + [x];
      FindAppend(run[1..], x, op);
    }
  }

  /** In a legal run, what is found is determined by what the run contains. */
  lemma FindUnique(run: seq<Instruction>, x: Instruction)
    requires RunLegal(run) && x in run
    ensures Find(run, x.opcode) == Some(x)
  {
    FindMeans(run, x.opcode);
    var y := Find(run, x.opcode).value;
    var i :| 0 <= i < |run| && run[i] == x;
    var j :| 0 <= j < |run| && run[j] == y;
  }

  ghost predicate AllPrefixes(run: seq<Instruction>) {
    forall i | i in run :: PrefixInstruction(i)
  }

  // One more prefix: the state machine's step against the specification.

  lemma SummaryAppend(run: seq<Instruction>, x: Instruction)
    ensures Find(run, x.opcode).None? ==>
              forall op :: Find(run + [x], op) == if op == x.opcode then Some(x) else Find(run, op)
  {
    forall op ensures Find(run + [x], op) == if Find(run, op).Some? then Find(run, op) else if x.opcode == op then Some(x) else None {
      FindAppend(run, x, op);
    }
  }

  lemma RunLegalAppend(run: seq<Instruction>, x: Instruction)
    ensures RunLegal(run + [x]) <==> RunLegal(run) && Find(run, x.opcode).None? && Suppresses(x)
  {
    var longer := run + [x];
    FindMeans(run, x.opcode);
    if RunLegal(longer) {
      assert forall i | 0 <= i < |run| :: run[i] == longer[i];
      assert longer[|run|] == x;
    }
  }

  /** Applying a prefix to the record of a legal run: the record of the longer run, or `Malformed`. */
  lemma ApplyStep(run: seq<Instruction>, x: Instruction)
    requires RunLegal(run) && AllPrefixes(run) && PrefixInstruction(x)
    ensures ApplyPrefix(Summary(run), x)
         == if RunLegal(run + [x]) then Ok(Summary(run + [x])) else Err(Malformed)
  {
    hide RunLegal, NoChecksOf, Suppressed;
    MaskBits(ByteOperand(x));
    RunLegalAppend(run, x);
    SummaryAppend(run, x);
    FindMeans(run, x.opcode);
    SummaryFlags(run);
  }

  /** Each field of the record of a legal run is set exactly when its prefix occurs. */
  lemma SummaryFlags(run: seq<Instruction>)
    requires RunLegal(run) && AllPrefixes(run)
    ensures Summary(run).constrained.Some? <==> Find(run, CONSTRAINED).Some?
    ensures Summary(run).no != NO_CHECKS <==> Find(run, NO).Some?
    ensures Summary(run) == NO_PREFIXES <==> run == []
  {
    FindMeans(run, CONSTRAINED);
    FindMeans(run, NO);
    if Find(run, NO).Some? {
      var i :| 0 <= i < |run| && run[i] == Find(run, NO).value;
      assert Suppresses(run[i]);
      MaskBits(ByteOperand(run[i]));
    }
    if run != [] {
      var x := run[0];
      assert PrefixInstruction(x);
      FindUnique(run, x);
    }
  }

  /** The record check is the prefix-by-prefix check. */
  lemma CheckMeansTargetLegal(run: seq<Instruction>, target: OpCode)
    requires RunLegal(run) && AllPrefixes(run)
    ensures CheckTargets(Summary(run), target) == if TargetLegal(run, target) then Ok(()) else Err(InvalidPrefixTarget)
  {
    hide RunLegal, AllowsVolatile, AllowsUnaligned, AllowsNo, Suppresses, AddressCodes, CheckedCodes;
    TargetsListed(target);
    CallTargets(target);
    SummaryFlags(run);
    if TargetLegal(run, target) {
      forall op | Find(run, op).Some? ensures Allows(op, target) {
        FindMeans(run, op);
      }
    } else {
      var i :| 0 <= i < |run| && !Allows(run[i].opcode, target);
      FindUnique(run, run[i]);
      assert PrefixInstruction(run[i]);
    }
  }

  lemma CallTargets(target: OpCode)
    ensures Code(target) in {0x28, 0x6F, 0xFE06} <==> target == CALLVIRT || target == CALL || target == LDFTN
    ensures Code(target) in {0x28, 0x29, 0x6F} <==> target == CALL || target == CALLI || target == CALLVIRT
    ensures Code(target) in {0x28, 0x6F, 0x8F} <==> target == LDELEMA || target == CALL || target == CALLVIRT
  {}

  /** A prefix keeps what stands behind its two opcode bytes: a token, or a byte. */
  lemma {:induction false} PrefixOperands(code: seq<byte>, offset: u32)
    requires Decode(code, offset).Ok?
    ensures var i := Decode(code, offset).value;
            && (i.opcode == CONSTRAINED ==> i.size == 6 && TokenOperand(i) == Some(Le32(code[offset + 2..offset + 6])))
            && (i.opcode == UNALIGNED || i.opcode == NO ==> i.size == 3 && ByteOperand(i) == code[offset + 2])
  {
    hide Le32, FromBytes, ToI8;
    var rest := code[offset..];
    FromBytesSound(rest);
    var (op, n) := FromBytes(rest).value;
    if op == CONSTRAINED {
      assert rest[2..][..4] == code[offset + 2..offset + 6];
    } else if op == UNALIGNED || op == NO {
      SignedBytes(0, rest[2], 0, 0);
      assert rest[2..][..1][0] == code[offset + 2];
    }
  }

  // Prefix order does not matter.

  function ApplyAll(p: Prefixes, run: seq<Instruction>): Result<Prefixes>
    decreases run
  {
    if run == [] then Ok(p)
    else
      var q :- ApplyPrefix(p, run[0]);
      ApplyAll(q, run[1..])
  }

  lemma {:induction false} ApplyAllFrom(done: seq<Instruction>, run: seq<Instruction>)
    requires RunLegal(done) && AllPrefixes(done) && AllPrefixes(run)
    ensures ApplyAll(Summary(done), run) == if RunLegal(done + run) then Ok(Summary(done + run)) else Err(Malformed)
    decreases run
  {
    hide RunLegal, Summary, ApplyPrefix;
    if run == [] {
      assert done + run == done;
    } else {
      ApplyStep(done, run[0]);
      assert done + run == (done + [run[0]]) + run[1..];
      if RunLegal(done + [run[0]]) {
        ApplyAllFrom(done + [run[0]], run[1..]);
      } else if RunLegal(done + run) {
        RunLegalPrefix(done + [run[0]], run[1..]);
      }
    }
  }

  lemma RunLegalPrefix(a: seq<Instruction>, b: seq<Instruction>)
    requires RunLegal(a + b)
    ensures RunLegal(a)
  {
    assert forall i | 0 <= i < |a| :: a[i] == (a + b)[i];
  }

  /** A prefix sequence is accepted exactly when its kinds are distinct and no `no.` mask is empty. */
  lemma PrefixesAccepted(run: seq<Instruction>)
    requires AllPrefixes(run)
    ensures ApplyAll(NO_PREFIXES, run) == if RunLegal(run) then Ok(Summary(run)) else Err(Malformed)
  {
    EmptyRun();
    ApplyAllFrom([], run);
    assert [] + run == run;
  }

  lemma {:induction false} OccursTwice<T>(s: seq<T>, x: T)
    ensures multiset(s)[x] >= 2 <==> exists i, j :: 0 <= i < j < |s| && s[i] == x && s[j] == x
  {
    if s == [] {
    } else {
      assert s == [s[0]] + s[1..];
      OccursTwice(s[1..], x);
      if exists i, j :: 0 <= i < j < |s| && s[i] == x && s[j] == x {
        var i, j :| 0 <= i < j < |s| && s[i] == x && s[j] == x;
        assert s[1..][j - 1] == x;
        if i > 0 {
          assert s[1..][i - 1] == x;
        }
      }
      if multiset(s)[x] >= 2 {
        if s[0] == x {
          assert x in s[1..];
          var j :| 0 <= j < |s[1..]| && s[1..][j] == x;
          assert s[0] == x && s[j + 1] == x;
        } else {
          var i, j :| 0 <= i < j < |s[1..]| && s[1..][i] == x && s[1..][j] == x;
          assert s[i + 1] == x && s[j + 1] == x;
        }
      }
    }
  }

  lemma RunLegalPermuted(a: seq<Instruction>, b: seq<Instruction>)
    requires multiset(a) == multiset(b) && RunLegal(a)
    ensures RunLegal(b)
  {
    forall i, j | 0 <= i < j < |b| ensures b[i].opcode != b[j].opcode {
      if b[i].opcode == b[j].opcode {
        assert b[i] in multiset(b) && b[j] in multiset(b);
        FindUnique(a, b[i]);
        FindUnique(a, b[j]);
        OccursTwice(b, b[i]);
        OccursTwice(a, b[i]);
      }
    }
    forall i | 0 <= i < |b| ensures Suppresses(b[i]) {
      assert b[i] in multiset(b);
      assert b[i] in a;
    }
  }

  /** Any permutation of a prefix sequence gets the same verdict and, if accepted, the same record. */
  lemma PrefixOrderIrrelevant(a: seq<Instruction>, b: seq<Instruction>)
    requires AllPrefixes(a) && multiset(a) == multiset(b)
    ensures ApplyAll(NO_PREFIXES, a) == ApplyAll(NO_PREFIXES, b)
  {
    forall i | i in b ensures PrefixInstruction(i) {
      assert i in multiset(b);
      assert i in a;
    }
    PrefixesAccepted(a);
    PrefixesAccepted(b);
    if RunLegal(b) {
      RunLegalPermuted(b, a);
    }
    if RunLegal(a) {
      RunLegalPermuted(a, b);
      forall op ensures Find(a, op) == Find(b, op) {
        SameFind(a, b, op);
      }
    }
  }

  lemma SameMembers<T>(a: seq<T>, b: seq<T>)
    requires multiset(a) == multiset(b)
    ensures forall x :: x in a <==> x in b
  {
    assert forall x :: x in a <==> x in multiset(a);
    assert forall x :: x in b <==> x in multiset(b);
  }

  lemma SameFind(a: seq<Instruction>, b: seq<Instruction>, op: OpCode)
    requires multiset(a) == multiset(b) && RunLegal(a) && RunLegal(b)
    ensures Find(a, op) == Find(b, op)
  {
    FindMeans(a, op);
    FindMeans(b, op);
    if Find(a, op).Some? {
      var x := Find(a, op).value;
      assert x in multiset(a);
      assert x in b;
      FindUnique(b, x);
    } else {
      SameMembers(a, b);
    }
  }

  /** Repeating the prefix just read, or a `no.` that suppresses nothing, is malformed whatever follows. */
  lemma {:induction false} RepeatedPrefix(p: Instruction, q: Instruction, tail: Stream<Instruction>)
    requires IsPrefix(p.opcode) && IsPrefix(q.opcode)
    ensures q.opcode == p.opcode || !Suppresses(p) || !Suppresses(q) ==> Group(Item(p, Item(q, tail))) == Fault(Malformed)
    ensures !Suppresses(p) ==> Group(Item(p, tail)) == Fault(Malformed)
  {
    var rest := PrefixRun(tail);
    assert PrefixRun(Item(q, tail)) == [q] + rest;
    var run := PrefixRun(Item(p, Item(q, tail)));
    assert run == [p] + ([q] + rest);
    assert run[0] == p && run[1] == q;
    assert PrefixRun(Item(p, tail))[0] == p;
  }

  /**
   * A single prefix folds onto the instruction behind it exactly when that is one of its targets;
   * another target, or none, is the error, and a fault of the raw stream is passed on.
   */
  lemma {:induction false} SinglePrefix(p: Instruction, tail: Stream<Instruction>)
    requires IsPrefix(p.opcode) && Suppresses(p) && !(tail.Item? && IsPrefix(tail.head.opcode))
    ensures tail.End? ==> Group(Item(p, tail)) == Fault(InvalidPrefixTarget)
    ensures tail.Fault? ==> Group(Item(p, tail)) == Fault(tail.error)
    ensures tail.Item? && Code(tail.head.opcode) !in TargetCodes(p.opcode) ==> Group(Item(p, tail)) == Fault(InvalidPrefixTarget)
    ensures tail.Item? && Code(tail.head.opcode) in TargetCodes(p.opcode) ==>
              Group(Item(p, tail)) == Item(Folded(tail.head, Summary([p]), p.offset), Group(tail.tail))
  {
    hide TargetCodes, Code, Summary;
    assert PrefixRun(tail) == [];
    assert PrefixRun(Item(p, tail)) == [p] && AfterRun(Item(p, tail)) == AfterRun(tail) == tail;
    assert RunLegal([p]);
    assert tail.Item? ==> (TargetLegal([p], tail.head.opcode) <==> Allows([p][0].opcode, tail.head.opcode));
  }

  // What grouping guarantees.

  /** Every run in the raw stream is legal and ends on a legal target. */
  ghost predicate RunsLegal(raw: Stream<Instruction>)
    decreases Length(raw)
  {
    var run := PrefixRun(raw);
    && RunLegal(run)
    && match AfterRun(raw)
       case End => run == []
       case Fault(_) => true
       case Item(target, tail) => TargetLegal(run, target.opcode) && (AfterRunLength(raw); RunsLegal(tail))
  }

  /** Folding finishes without an error if and only if raw decoding does and every run is legal. */
  lemma {:induction false} FoldingClean(raw: Stream<Instruction>)
    ensures Clean(Group(raw)) <==> Clean(raw) && RunsLegal(raw)
    decreases Length(raw)
  {
    hide RunLegal, TargetLegal, Summary;
    AfterRunLength(raw);
    AfterRunClean(raw);
    if AfterRun(raw).Item? {
      FoldingClean(AfterRun(raw).tail);
    }
  }

  lemma {:induction false} AfterRunClean(raw: Stream<Instruction>)
    ensures Clean(AfterRun(raw)) <==> Clean(raw)
  {
    if raw.Item? && IsPrefix(raw.head.opcode) {
      AfterRunClean(raw.tail);
    }
  }

  /** Folded spans, prefixes included, are contiguous from `at` and end at `end` unless a fault comes first. */
  ghost predicate FoldedTiles(s: Stream<Folded>, at: nat, end: nat) {
    match s
    case End => at == end
    case Fault(_) => at < end
    case Item(f, tail) =>
      && f.firstOffset == at && at <= f.instruction.offset && 1 <= f.instruction.size
      && f.instruction.offset + f.instruction.size <= end
      && FoldedTiles(tail, f.instruction.offset + f.instruction.size, end)
  }

  lemma {:induction false} AfterRunTiles(raw: Stream<Instruction>, at: nat, end: nat) returns (mid: nat)
    requires Tiles(raw, at, end)
    ensures at <= mid <= end && Tiles(AfterRun(raw), mid, end)
    ensures PrefixRun(raw) == [] ==> mid == at
    ensures PrefixRun(raw) != [] ==> PrefixRun(raw)[0].offset == at && at < mid
    ensures AllPrefixes(PrefixRun(raw))
  {
    hide WellFormed;
    mid := at;
    if raw.Item? && IsPrefix(raw.head.opcode) {
      mid := AfterRunTiles(raw.tail, at + raw.head.size, end);
      DecodedPrefix(raw.head);
      assert forall i | i in PrefixRun(raw) :: i == raw.head || i in PrefixRun(raw.tail);
    }
  }

  lemma DecodedPrefix(i: Instruction)
    requires WellFormed(i) && IsPrefix(i.opcode)
    ensures PrefixInstruction(i)
  {}

  /** Folding a tiling stream gives spans that tile the same bytes: every byte of the method is accounted for. */
  lemma {:induction false} GroupTiles(raw: Stream<Instruction>, at: nat, end: nat)
    requires Tiles(raw, at, end)
    ensures FoldedTiles(Group(raw), at, end)
    decreases Length(raw)
  {
    hide WellFormed, RunLegal, TargetLegal, Summary, AllPrefixes;
    var mid := AfterRunTiles(raw, at, end);
    AfterRunLength(raw);
    RunNonEmptyAdvances(raw, at, end);
    if AfterRun(raw).Item? {
      GroupTiles(AfterRun(raw).tail, mid + AfterRun(raw).head.size, end);
    }
  }

  lemma RunNonEmptyAdvances(raw: Stream<Instruction>, at: nat, end: nat)
    requires Tiles(raw, at, end)
    ensures !raw.End? ==> at < end
    ensures PrefixRun(raw) != [] ==> at < end
    ensures !RunLegal(PrefixRun(raw)) ==> PrefixRun(raw) != []
  {}

  /** The folded view of any code: spans that tile it, and no error exactly when the raw stream has none and its runs are legal. */
  lemma {:induction false} FoldedStream(code: seq<byte>)
    requires |code| < 0x1_0000_0000
    ensures FoldedTiles(Group(RawStream(code, 0)), 0, |code|)
    ensures Clean(Group(RawStream(code, 0))) <==> Clean(RawStream(code, 0)) && RunsLegal(RawStream(code, 0))
  {
    RawStreamTiles(code, 0);
    GroupTiles(RawStream(code, 0), 0, |code|);
    FoldingClean(RawStream(code, 0));
  }

  // The iterator.

  /** Part way through a pull: `run` has been read off `raw` and applied, and `rest` is still to come. */
  ghost predicate Pulling(raw: Stream<Instruction>, run: seq<Instruction>, rest: Stream<Instruction>, prefixes: Prefixes) {
    && RunLegal(run) && AllPrefixes(run) && prefixes == Summary(run)
    && PrefixRun(raw) == run + PrefixRun(rest) && AfterRun(raw) == AfterRun(rest)
    && forall i | i in Items(rest) :: WellFormed(i)
  }

  lemma PullStarts(raw: Stream<Instruction>)
    requires forall i | i in Items(raw) :: WellFormed(i)
    ensures Pulling(raw, [], raw, NO_PREFIXES)
  {
    EmptyRun();
    assert [] + PrefixRun(raw) == PrefixRun(raw);
  }

  lemma PullEnds(raw: Stream<Instruction>, run: seq<Instruction>, rest: Stream<Instruction>, prefixes: Prefixes)
    requires Pulling(raw, run, rest, prefixes) && !rest.Item?
    ensures Group(raw) == if rest.Fault? then Fault(rest.error) else if run == [] then End else Fault(InvalidPrefixTarget)
  {
    hide RunLegal, Summary, WellFormed, AllPrefixes;
    assert run + [] == run;
  }

  /** One more prefix goes into the record, or faults the whole run. */
  lemma PullPrefix(raw: Stream<Instruction>, run: seq<Instruction>, rest: Stream<Instruction>, prefixes: Prefixes)
    requires Pulling(raw, run, rest, prefixes) && rest.Item? && IsPrefix(rest.head.opcode)
    ensures var applied := ApplyPrefix(prefixes, rest.head);
            if applied.Ok? then Pulling(raw, run + [rest.head], rest.tail, applied.value)
            else Group(raw) == Fault(applied.error)
  {
    hide RunLegal, Summary, WellFormed, ApplyPrefix;
    var i, tail := rest.head, rest.tail;
    assert i in Items(rest) && forall j | j in Items(tail) :: j in Items(rest);
    DecodedPrefix(i);
    ApplyStep(run, i);
    assert run + PrefixRun(rest) == (run + [i]) + PrefixRun(tail);
    if !RunLegal(run + [i]) && RunLegal(PrefixRun(raw)) {
      RunLegalPrefix(run + [i], PrefixRun(tail));
    }
  }

  /** The target ends the run: it is folded, or refused. */
  lemma PullTarget(raw: Stream<Instruction>, run: seq<Instruction>, rest: Stream<Instruction>, prefixes: Prefixes)
    requires Pulling(raw, run, rest, prefixes) && rest.Item? && !IsPrefix(rest.head.opcode)
    ensures var checked := if prefixes == NO_PREFIXES then Ok(()) else CheckTargets(prefixes, rest.head.opcode);
            if checked.Err? then Group(raw) == Fault(checked.error)
            else Group(raw) == Item(Folded(rest.head, prefixes, if run == [] then rest.head.offset else run[0].offset), Group(rest.tail))
  {
    hide RunLegal, TargetLegal, Summary, WellFormed, CheckTargets;
    assert run + [] == run;
    CheckMeansTargetLegal(run, rest.head.opcode);
    SummaryFlags(run);
    EmptyRun();
  }

  class FoldedIter {
    const inner: InstructionIter

    constructor (code: seq<byte>)
      ensures inner.Future() == RawStream(code, 0) && fresh(inner) && inner.code == code
    {
      inner := new InstructionIter(code);
    }

    ghost function Future(): Stream<Folded>
      reads this, inner
    {
      Group(inner.Future())
    }

    /** Pulls raw instructions, collecting prefixes, until a target or a fault. */
    method Next() returns (r: Option<Result<Folded>>)
      modifies inner
      ensures Yields(old(Future()), r, Future())
    {
      hide Pulling, Group, CheckTargets, ApplyPrefix, RawStream, WellFormed, IsPrefix;
      GroupNothing();
      ghost var raw := inner.Future();
      ghost var run: seq<Instruction> := [];
      var prefixes := NO_PREFIXES;
      var first: Option<u32> := None;
      if !inner.done {
        RawWellFormed(inner.code, inner.offset);
      }
      PullStarts(raw);
      while true
        invariant Pulling(raw, run, inner.Future(), prefixes)
        invariant first == if run == [] then None else Some(run[0].offset)
        decreases inner.Future()
      {
        ghost var rest := inner.Future();
        var item := inner.Next();
        match item
        case None =>
          PullEnds(raw, run, rest, prefixes);
          if first == None {
            return None;
          }
          inner.done := true;
          return Some(Err(InvalidPrefixTarget));
        case Some(Err(e)) =>
          PullEnds(raw, run, rest, prefixes);
          return Some(Err(e));
        case Some(Ok(i)) =>
          var at := if first == None then i.offset else first.value;
          if IsPrefix(i.opcode) {
            PullPrefix(raw, run, rest, prefixes);
            var applied := ApplyPrefix(prefixes, i);
            if applied.Err? {
              inner.done := true;
              return Some(Err(applied.error));
            }
            run := run + [i];
            prefixes := applied.value;
            first := Some(at);
          } else {
            PullTarget(raw, run, rest, prefixes);
            if prefixes != NO_PREFIXES {
              var checked := CheckTargets(prefixes, i.opcode);
              if checked.Err? {
                inner.done := true;
                return Some(Err(checked.error));
              }
            }
            return Some(Ok(Folded(i, prefixes, at)));
          }
      }
    }
  }

  lemma GroupNothing()
    ensures Group(End) == End
  {
    EmptyRun();
  }

  lemma EmptyRun()
    ensures RunLegal([]) && Summary([]) == NO_PREFIXES && forall op :: TargetLegal([], op)
  {}
}
