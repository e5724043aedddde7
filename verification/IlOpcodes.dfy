/**
 * The opcode table read row by row (src/il/table.rs, Partition VI Annex C of ECMA-335): which
 * encodings exist, what each one's operand is, and what an abbreviated encoding stands for.
 */
module IlOpcodes {
  import opened Wrappers
  import opened Bytes
  import opened IlDecode

  /** An encoding as one number, the escape byte in front. */
  function Code(op: OpCode): nat {
    match op
    case One(b) => b
    case Two(b) => 0xFE00 + b
  }

  /** The rows of each operand kind; every other row has no operand. */
  function Rows(k: OperandKind): set<nat>
    requires k != InlineNone
  {
    match k
    case ShortInlineVar => {0x0E, 0x0F, 0x10, 0x11, 0x12, 0x13}
    case InlineVar => {0xFE09, 0xFE0A, 0xFE0B, 0xFE0C, 0xFE0D, 0xFE0E}
    case ShortInlineI => {0x1F, 0xFE12, 0xFE19}
    case InlineI => {0x20}
    case InlineI8 => {0x21}
    case ShortInlineR => {0x22}
    case InlineR => {0x23}
    case InlineMethod => {0x27, 0x28, 0x6F, 0x73, 0xFE06, 0xFE07}
    case InlineField => {0x7B, 0x7C, 0x7D, 0x7E, 0x7F, 0x80}
    case InlineType =>
      {0x70, 0x71, 0x74, 0x75, 0x79, 0x81, 0x8C, 0x8D,
       0x8F, 0xA3, 0xA4, 0xA5, 0xC2, 0xC6, 0xFE15, 0xFE16, 0xFE1C}
    case InlineTok => {0xD0}
    case InlineString => {0x72}
    case InlineSig => {0x29}
    case ShortInlineBrTarget => {0x2B, 0x2C, 0x2D, 0x2E, 0x2F, 0x30, 0x31, 0x32, 0x33, 0x34, 0x35, 0x36, 0x37, 0xDE}
    case InlineBrTarget => {0x38, 0x39, 0x3A, 0x3B, 0x3C, 0x3D, 0x3E, 0x3F, 0x40, 0x41, 0x42, 0x43, 0x44, 0xDD}
    case InlineSwitch => {0x45}
  }

  /** The one-byte encodings below the escape that have no row. */
  function Gaps(): set<nat> {
    {0x24, 0x77, 0x78, 0xA6, 0xA7, 0xA8, 0xA9, 0xAA, 0xAB, 0xAC, 0xAD, 0xAE, 0xAF,
     0xB0, 0xB1, 0xB2, 0xBB, 0xBC, 0xBD, 0xBE, 0xBF, 0xC0, 0xC1, 0xC4, 0xC5, 0xC7,
     0xC8, 0xC9, 0xCA, 0xCB, 0xCC, 0xCD, 0xCE, 0xCF}
  }

  lemma {:induction false} KindListed(op: OpCode, k: OperandKind)
    requires k != InlineNone
    ensures Known(op) && KindOf(op) == k <==> Code(op) in Rows(k)
  {
    hide Known, KindOf, Rows;
    match op
    case One(b) => OneListed(b, k);
    case Two(b) => TwoListed(b, k);
  }

  lemma OneListed(b: byte, k: OperandKind)
    requires k != InlineNone
    ensures Known(One(b)) && KindOf(One(b)) == k <==> b in Rows(k)
  {
    hide Known, KindOf, Rows;
    match k
    case InlineType => TypeRows(b);
    case ShortInlineBrTarget => BranchRows(b);
    case InlineBrTarget => BranchRows(b);
    case _ => OtherRows(b, k);
  }

  lemma TypeRows(b: byte)
    ensures Known(One(b)) && KindOf(One(b)) == InlineType <==> b in Rows(InlineType)
  {}

  lemma BranchRows(b: byte)
    ensures Known(One(b)) && KindOf(One(b)) == ShortInlineBrTarget <==> b in Rows(ShortInlineBrTarget)
    ensures Known(One(b)) && KindOf(One(b)) == InlineBrTarget <==> b in Rows(InlineBrTarget)
  {}

  lemma OtherRows(b: byte, k: OperandKind)
    requires k != InlineNone && k != InlineType && k != ShortInlineBrTarget && k != InlineBrTarget
    ensures Known(One(b)) && KindOf(One(b)) == k <==> b in Rows(k)
  {}

  lemma TwoListed(b: byte, k: OperandKind)
    requires k != InlineNone
    ensures Known(Two(b)) && KindOf(Two(b)) == k <==> 0xFE00 + b in Rows(k)
  {
    match k
    case InlineVar =>
    case _ =>
  }

  lemma {:induction false} KnownListed(op: OpCode)
    ensures Known(op) <==>
              if op.One? then op.code <= 0xE0 && Code(op) !in Gaps() else op.code <= 0x1E && Code(op) !in {0xFE08, 0xFE10, 0xFE1B}
  {}

  /** The six prefixes. */
  lemma PrefixesListed(op: OpCode)
    ensures IsPrefix(op) <==> Code(op) in {0xFE12, 0xFE13, 0xFE14, 0xFE16, 0xFE19, 0xFE1E}
  {}

  // How many there are.

  function KnownBelow(n: nat, escaped: bool): nat
    requires n <= 0x100
  {
    if n == 0 then 0
    else KnownBelow(n - 1, escaped) + (if Known(if escaped then Two(n - 1) else One(n - 1)) then 1 else 0)
  }

  /** Over a stretch where all encodings exist, or none does, the count grows with its length, or not. */
  lemma {:induction false} Stretch(lo: nat, hi: nat, escaped: bool, known: bool)
    requires lo <= hi <= 0x100
    requires forall b | lo <= b < hi :: Known(if escaped then Two(b) else One(b)) == known
    ensures KnownBelow(hi, escaped) == KnownBelow(lo, escaped) + (if known then hi - lo else 0)
    decreases hi
  {
    if lo < hi {
      Stretch(lo, hi - 1, escaped, known);
    }
  }

  lemma CountFromNone(escaped: bool)
    ensures KnownBelow(0, escaped) == 0
  {}

  lemma {:induction false} OneByteCount()
    ensures KnownBelow(0x100, false) == 191
  {
    hide KnownBelow;
    CountFromNone(false);
    Stretch(0x00, 0x24, false, true);
    Stretch(0x24, 0x25, false, false);
    Stretch(0x25, 0x77, false, true);
    Stretch(0x77, 0x79, false, false);
    Stretch(0x79, 0xA6, false, true);
    Stretch(0xA6, 0xB3, false, false);
    Stretch(0xB3, 0xBB, false, true);
    Stretch(0xBB, 0xC2, false, false);
    Stretch(0xC2, 0xC4, false, true);
    Stretch(0xC4, 0xC6, false, false);
    Stretch(0xC6, 0xC7, false, true);
    Stretch(0xC7, 0xD0, false, false);
    Stretch(0xD0, 0xE1, false, true);
    Stretch(0xE1, 0x100, false, false);
  }

  lemma {:induction false} TwoByteCount()
    ensures KnownBelow(0x100, true) == 28
  {
    hide KnownBelow;
    CountFromNone(true);
    Stretch(0x00, 0x08, true, true);
    Stretch(0x08, 0x09, true, false);
    Stretch(0x09, 0x10, true, true);
    Stretch(0x10, 0x11, true, false);
    Stretch(0x11, 0x1B, true, true);
    Stretch(0x1B, 0x1C, true, false);
    Stretch(0x1C, 0x1F, true, true);
    Stretch(0x1F, 0x100, true, false);
  }

  /** The table has 219 rows. */
  lemma {:induction false} OpcodeCount()
    ensures KnownBelow(0x100, false) + KnownBelow(0x100, true) == 219
  {
    hide KnownBelow;
    OneByteCount();
    TwoByteCount();
  }

  // Abbreviations.

  /** `canonical_of`: the general opcode of a short or macro encoding. */
  function Canonical(op: OpCode): OpCode {
    match op
    case One(b) =>
      if 0x02 <= b <= 0x05 then Two(0x09)
      else if 0x06 <= b <= 0x09 then Two(0x0C)
      else if 0x0A <= b <= 0x0D then Two(0x0E)
      else if 0x0E <= b <= 0x13 then Two(b - 0x0E + 0x09)
      else if 0x15 <= b <= 0x1F then One(0x20)
      else if 0x2B <= b <= 0x37 then One(b - 0x2B + 0x38)
      else if b == 0xDE then One(0xDD)
      else op
    case Two(_) => op
  }

  lemma CanonicalTwice(op: OpCode)
    ensures Canonical(Canonical(op)) == Canonical(op) && (Known(op) ==> Known(Canonical(op)))
  {}

  /** The same instruction under its canonical opcode, at the same place. */
  function Longhand(i: Instruction): Instruction {
    var op := Canonical(i.opcode);
    Instruction(i.offset, |OpBytes(op)| + OperandSize(op, i.operand), op, i.operand)
  }

  /** Whatever an abbreviated encoding carries, its canonical opcode can carry: the longhand decodes to it too. */
  lemma {:induction false} LonghandKeepsOperand(before: seq<byte>, i: Instruction, after: seq<byte>)
    requires WellFormed(i) && i.offset == |before| && i.offset + 2 < 0x1_0000_0000
    ensures WellFormed(Longhand(i)) && Decode(before + Encode(Longhand(i)) + after, |before|) == Ok(Longhand(i))
  {
    var long := Longhand(i);
    CanonicalCarries(i.opcode, i.operand, NextOffset(i), NextOffset(long));
    SizeIs(long.opcode, long.operand, NextOffset(long));
    DecodeEncode(before, long, after);
  }

  lemma CanonicalCarries(op: OpCode, operand: Operand, next: u32, longNext: u32)
    requires Known(op) && WellTyped(op, operand, next)
    ensures Known(Canonical(op)) && WellTyped(Canonical(op), operand, if Canonical(op) == op then next else longNext)
  {
    hide WrapSub;
  }

  /** `short` and `long` both decode, wherever they stand, to one instruction with the operand `operand`. */
  ghost predicate BothCarry(before: seq<byte>, short: seq<byte>, long: seq<byte>, after: seq<byte>, operand: Operand)
    requires |before| < 0x1_0000_0000
  {
    var s, l := Decode(before + short + after, |before|), Decode(before + long + after, |before|);
    && s.Ok? && l.Ok? && s.value.size == |short| && l.value.size == |long|
    && s.value.operand == operand == l.value.operand && Canonical(s.value.opcode) == Canonical(l.value.opcode)
  }

  /** An instruction spelled out. */
  lemma Spelled(before: seq<byte>, bytes: seq<byte>, op: OpCode, operand: Operand, after: seq<byte>)
    requires |before| + |bytes| < 0x1_0000_0000
    requires var i := Instruction(|before|, |bytes|, op, operand); WellFormed(i) && Encode(i) == bytes
    ensures Decode(before + bytes + after, |before|) == Ok(Instruction(|before|, |bytes|, op, operand))
  {
    DecodeEncode(before, Instruction(|before|, |bytes|, op, operand), after);
  }

  /** `ldc.i4.m1` to `ldc.i4.8` carry what `ldc.i4` spells. */
  lemma {:induction false} ConstantMacro(n: int, before: seq<byte>, after: seq<byte>)
    requires -1 <= n <= 8 && |before| + 5 < 0x1_0000_0000
    ensures BothCarry(before, [0x16 + n], [0x20] + Put32(n % 0x1_0000_0000), after, I32(n))
  {
    hide Put32, Decode;
    Spelled(before, [0x16 + n], One(0x16 + n), I32(n), after);
    Spelled(before, [0x20] + Put32(n % 0x1_0000_0000), One(0x20), I32(n), after);
  }

  /** `ldarg.0` to `stloc.3` carry what `ldarg.s`, `ldloc.s` and `stloc.s` spell. */
  lemma {:induction false} VariableMacro(family: nat, n: nat, before: seq<byte>, after: seq<byte>)
    requires family < 3 && n < 4 && |before| + 5 < 0x1_0000_0000
    ensures BothCarry(before, [0x02 + 4 * family + n], [[0x0E, 0x11, 0x13][family], n], after, Var(n))
  {
    hide Decode;
    Spelled(before, [0x02 + 4 * family + n], One(0x02 + 4 * family + n), Var(n), after);
    Spelled(before, [[0x0E, 0x11, 0x13][family], n], One([0x0E, 0x11, 0x13][family]), Var(n), after);
  }

  /** The six `.s` variable instructions carry what their two-byte forms spell. */
  lemma {:induction false} ShortVariable(k: nat, n: byte, before: seq<byte>, after: seq<byte>)
    requires k < 6 && |before| + 5 < 0x1_0000_0000
    ensures BothCarry(before, [0x0E + k, n], [0xFE, 0x09 + k, n, 0], after, Var(n))
  {
    hide Decode;
    Spelled(before, [0x0E + k, n], One(0x0E + k), Var(n), after);
    Spelled(before, [0xFE, 0x09 + k, n, 0], Two(0x09 + k), Var(n), after);
  }

  /** `ldc.i4.s` sign-extends its byte. */
  lemma {:induction false} ShortConstant(v: int, before: seq<byte>, after: seq<byte>)
    requires -0x80 <= v < 0x80 && |before| + 5 < 0x1_0000_0000
    ensures BothCarry(before, [0x1F, v % 0x100], [0x20] + Put32(v % 0x1_0000_0000), after, I32(v))
  {
    hide Put32, Decode;
    Spelled(before, [0x1F, v % 0x100], One(0x1F), I32(v), after);
    Spelled(before, [0x20] + Put32(v % 0x1_0000_0000), One(0x20), I32(v), after);
  }

  /** A branch counts from its end, around the 32-bit range, in its short form and in its long one. */
  lemma {:induction false} ShortBranchForm(b: byte, d: int, before: seq<byte>, after: seq<byte>)
    requires (0x2B <= b <= 0x37 || b == 0xDE) && -0x80 <= d < 0x80 && |before| + 2 < 0x1_0000_0000
    ensures Decode(before + [b, d % 0x100] + after, |before|)
         == Ok(Instruction(|before|, 2, One(b), BranchTarget((|before| + 2 + d) % 0x1_0000_0000)))
  {
    hide Decode, WrapSub;
    DeltaBack(|before| + 2, d);
    ShortDelta(d);
    Spelled(before, [b, d % 0x100], One(b), BranchTarget((|before| + 2 + d) % 0x1_0000_0000), after);
  }

  lemma {:induction false} LongBranchForm(b: byte, d: int, before: seq<byte>, after: seq<byte>)
    requires (0x38 <= b <= 0x44 || b == 0xDD) && -0x8000_0000 <= d < 0x8000_0000 && |before| + 5 < 0x1_0000_0000
    ensures Decode(before + ([b] + Put32(d % 0x1_0000_0000)) + after, |before|)
         == Ok(Instruction(|before|, 5, One(b), BranchTarget((|before| + 5 + d) % 0x1_0000_0000)))
  {
    hide Put32, Decode, WrapSub;
    DeltaBack(|before| + 5, d);
    Spelled(before, [b] + Put32(d % 0x1_0000_0000), One(b), BranchTarget((|before| + 5 + d) % 0x1_0000_0000), after);
  }

  lemma DeltaBack(n: u32, d: int)
    requires -0x1_0000_0000 <= d < 0x1_0000_0000
    ensures WrapSub((n + d) % 0x1_0000_0000, n) == d % 0x1_0000_0000
  {}

  lemma ShortDelta(d: int)
    requires -0x80 <= d < 0x80
    ensures var u := d % 0x1_0000_0000; (u < 0x80 || u >= 0xFFFF_FF80) && u % 0x100 == d % 0x100
  {}

  /** The canonical opcode of a short branch is the long one of the same place in its row. */
  lemma CanonicalBranch(b: byte)
    ensures 0x2B <= b <= 0x37 ==> Canonical(One(b)) == One(b + 0x0D)
    ensures Canonical(One(0xDE)) == One(0xDD)
  {}
}
