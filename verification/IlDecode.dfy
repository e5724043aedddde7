/**
 * The CIL instruction decoder (src/il/mod.rs and src/il/table.rs, Partition III section 2 and
 * Partition VI Annex C of ECMA-335) and its inverse, the assembler.
 */
module IlDecode {
  import opened Wrappers
  import opened Bytes
  import opened Tokens

  /** An opcode by its encoding: one byte, or a byte behind the 0xFE escape. */
  datatype OpCode = One(code: byte) | Two(code: byte)

  datatype OperandKind =
    | InlineNone | InlineI | ShortInlineI | InlineI8 | ShortInlineR | InlineR
    | InlineBrTarget | ShortInlineBrTarget | InlineSwitch
    | InlineMethod | InlineField | InlineType | InlineTok | InlineString | InlineSig
    | InlineVar | ShortInlineVar

  /** Floats are kept as their bit patterns. */
  datatype Operand =
    | NoOperand
    | I8(i8: int)
    | I32(i32: int)
    | I64(i64: int)
    | R32(r32: u32)
    | R64(r64: u64)
    | BranchTarget(target: u32)
    | Switch(targets: seq<u32>)
    | Method(token: Token)
    | Field(token: Token)
    | Type(token: Token)
    | Tok(token: Token)
    | Sig(token: Token)
    | String(userString: u32)
    | Var(index: u16)

  datatype Instruction = Instruction(offset: u32, size: nat, opcode: OpCode, operand: Operand)

  const CALL := One(0x28)
  const CALLI := One(0x29)
  const CALLVIRT := One(0x6F)
  const LDELEMA := One(0x8F)
  const LDFTN := Two(0x06)
  const LDC_I4_S := One(0x1F)
  const UNALIGNED := Two(0x12)
  const VOLATILE := Two(0x13)
  const TAIL := Two(0x14)
  const CONSTRAINED := Two(0x16)
  const NO := Two(0x19)
  const READONLY := Two(0x1E)

  /** The 219 encodings Annex C defines. */
  predicate Known(op: OpCode) {
    match op
    case One(b) =>
      b <= 0xE0 && b != 0x24 && b != 0x77 && b != 0x78
      && !(0xA6 <= b <= 0xB2) && !(0xBB <= b <= 0xC1) && !(0xC4 <= b <= 0xC5) && !(0xC7 <= b <= 0xCF)
    case Two(b) => b <= 0x1E && b != 0x08 && b != 0x10 && b != 0x1B
  }

  function KindOf(op: OpCode): OperandKind {
    match op
    case One(b) =>
      if 0x0E <= b <= 0x13 then ShortInlineVar
      else if b == 0x1F then ShortInlineI
      else if b == 0x20 then InlineI
      else if b == 0x21 then InlineI8
      else if b == 0x22 then ShortInlineR
      else if b == 0x23 then InlineR
      else if b == 0x27 || b == 0x28 || b == 0x6F || b == 0x73 then InlineMethod
      else if b == 0x29 then InlineSig
      else if 0x2B <= b <= 0x37 || b == 0xDE then ShortInlineBrTarget
      else if 0x38 <= b <= 0x44 || b == 0xDD then InlineBrTarget
      else if b == 0x45 then InlineSwitch
      else if 0x70 <= b <= 0x71 || 0x74 <= b <= 0x75 || b == 0x79 || b == 0x81 || 0x8C <= b <= 0x8D
           || b == 0x8F || 0xA3 <= b <= 0xA5 || b == 0xC2 || b == 0xC6 then InlineType
      else if b == 0x72 then InlineString
      else if 0x7B <= b <= 0x80 then InlineField
      else if b == 0xD0 then InlineTok
      else InlineNone
    case Two(b) =>
      if 0x06 <= b <= 0x07 then InlineMethod
      else if 0x09 <= b <= 0x0E then InlineVar
      else if b == 0x12 || b == 0x19 then ShortInlineI
      else if 0x15 <= b <= 0x16 || b == 0x1C then InlineType
      else InlineNone
  }

  predicate IsPrefix(op: OpCode) {
    op == UNALIGNED || op == VOLATILE || op == TAIL || op == CONSTRAINED || op == NO || op == READONLY
  }

  /** The operand a macro encoding implies: an `ldarg`/`ldloc`/`stloc` index or an `ldc.i4` constant. */
  function Implied(op: OpCode): Operand {
    match op
    case One(b) =>
      if 0x02 <= b <= 0x0D then Var((b - 0x02) % 4)
      else if 0x15 <= b <= 0x1E then I32(b - 0x16)
      else NoOperand
    case Two(_) => NoOperand
  }

  /** The operand size in bytes; a `switch` has none. */
  function FixedSize(k: OperandKind): Option<nat> {
    match k
    case InlineNone => Some(0)
    case ShortInlineI => Some(1)
    case ShortInlineBrTarget => Some(1)
    case ShortInlineVar => Some(1)
    case InlineVar => Some(2)
    case InlineI8 => Some(8)
    case InlineR => Some(8)
    case InlineSwitch => None
    case _ => Some(4)
  }

  // Branch arithmetic wraps at 32 bits, as the original's does.

  function WrapAdd(a: u32, delta: int): u32
    requires -0x1_0000_0000 <= delta < 0x1_0000_0000
  {
    (a + delta) % 0x1_0000_0000
  }

  function WrapSub(a: u32, b: u32): u32 {
    if a >= b then a - b else a - b + 0x1_0000_0000
  }

  /** The value of a fixed-size operand whose instruction ends at `next`. */
  function Interpret(op: OpCode, s: seq<byte>, next: u32): Operand
    requires FixedSize(KindOf(op)) == Some(|s|)
  {
    match KindOf(op)
    case InlineNone => Implied(op)
    case ShortInlineI => if op == LDC_I4_S then I32(ToI8(s[0])) else I8(ToI8(s[0]))
    case InlineI => I32(ToI32(Le32(s)))
    case InlineI8 => I64(ToI64(Le64(s)))
    case ShortInlineR => R32(Le32(s))
    case InlineR => R64(Le64(s))
    case ShortInlineVar => Var(s[0])
    case InlineVar => Var(Le16(s))
    case ShortInlineBrTarget => BranchTarget(WrapAdd(next, ToI8(s[0])))
    case InlineBrTarget => BranchTarget(WrapAdd(next, Le32(s)))
    case InlineMethod => Method(Le32(s))
    case InlineField => Field(Le32(s))
    case InlineType => Type(Le32(s))
    case InlineTok => Tok(Le32(s))
    case InlineSig => Sig(Le32(s))
    case InlineString => String(Le32(s))
  }

  /** `n` switch deltas from the front of `s`, as absolute targets. */
  function Targets(s: seq<byte>, n: nat, next: u32): (ts: seq<u32>)
    requires 4 * n <= |s|
    ensures |ts| == n
    decreases n
  {
    if n == 0 then [] else [WrapAdd(next, Le32(s[..4]))] + Targets(s[4..], n - 1, next)
  }

  /** The operand at the front of `s`, for an opcode that ends at `at`, and its size. */
  function DecodeOperand(op: OpCode, s: seq<byte>, at: nat): Result<(Operand, nat)> {
    match FixedSize(KindOf(op))
    case Some(n) =>
      if |s| < n then Err(Truncated)
      else Ok((Interpret(op, s[..n], (at + n) % 0x1_0000_0000), n))
    case None =>
      if |s| < 4 then Err(Truncated)
      else
        var count := Le32(s[..4]);
        if count > (|s| - 4) / 4 then Err(Truncated)
        else
          var size := 4 + 4 * count;
          Ok((Switch(Targets(s[4..], count, (at + size) % 0x1_0000_0000)), size))
  }

  function FromBytes(s: seq<byte>): Result<(OpCode, nat)> {
    if s == [] then Err(Truncated)
    else if s[0] == 0xFE then
      if |s| < 2 then Err(Truncated)
      else if Known(Two(s[1])) then Ok((Two(s[1]), 2)) else Err(UnknownOpcode)
    else if Known(One(s[0])) then Ok((One(s[0]), 1))
    else Err(UnknownOpcode)
  }

  /** One instruction at `offset`. */
  function Decode(code: seq<byte>, offset: u32): Result<Instruction> {
    if offset > |code| then Err(OutOfRange)
    else
      var rest := code[offset..];
      var (op, n) :- FromBytes(rest);
      var (operand, used) :- DecodeOperand(op, rest[n..], offset + n);
      Ok(Instruction(offset, n + used, op, operand))
  }

  // The assembler.

  function OpBytes(op: OpCode): seq<byte> {
    match op
    case One(b) => [b]
    case Two(b) => [0xFE, b]
  }

  function PutI8(v: int): seq<byte> {
    [v % 0x100]
  }

  function PutI32(v: int): seq<byte> {
    Put32(v % 0x1_0000_0000)
  }

  function PutTargets(ts: seq<u32>, next: u32): (s: seq<byte>)
    ensures |s| == 4 * |ts|
  {
    if ts == [] then [] else Put32(WrapSub(ts[0], next)) + PutTargets(ts[1..], next)
  }

  /** The operand bytes, absolute targets turned back into deltas from `next`. */
  function PutOperand(op: OpCode, operand: Operand, next: u32): seq<byte>
    requires WellTyped(op, operand, next)
  {
    match KindOf(op)
    case InlineNone => []
    case ShortInlineI => if op == LDC_I4_S then PutI8(operand.i32) else PutI8(operand.i8)
    case InlineI => PutI32(operand.i32)
    case InlineI8 => Put64(operand.i64 % 0x1_0000_0000_0000_0000)
    case ShortInlineR => Put32(operand.r32)
    case InlineR => Put64(operand.r64)
    case ShortInlineVar => [operand.index]
    case InlineVar => Put16(operand.index)
    case ShortInlineBrTarget => PutI8(WrapSub(operand.target, next))
    case InlineBrTarget => Put32(WrapSub(operand.target, next))
    case InlineSwitch => Put32(|operand.targets|) + PutTargets(operand.targets, next)
    case InlineString => Put32(operand.userString)
    case _ => Put32(operand.token)
  }

  /** `operand` is one the opcode can carry in an instruction that ends at `next`. */
  predicate WellTyped(op: OpCode, operand: Operand, next: u32) {
    match KindOf(op)
    case InlineNone => operand == Implied(op)
    case ShortInlineI =>
      if op == LDC_I4_S then operand.I32? && -0x80 <= operand.i32 < 0x80
      else operand.I8? && -0x80 <= operand.i8 < 0x80
    case InlineI => operand.I32? && -0x8000_0000 <= operand.i32 < 0x8000_0000
    case InlineI8 => operand.I64? && -0x8000_0000_0000_0000 <= operand.i64 < 0x8000_0000_0000_0000
    case ShortInlineR => operand.R32?
    case InlineR => operand.R64?
    case ShortInlineVar => operand.Var? && operand.index < 0x100
    case InlineVar => operand.Var?
    case ShortInlineBrTarget =>
      operand.BranchTarget? && var d := WrapSub(operand.target, next); d < 0x80 || d >= 0xFFFF_FF80
    case InlineBrTarget => operand.BranchTarget?
    case InlineSwitch => operand.Switch? && |operand.targets| < 0x1_0000_0000
    case InlineMethod => operand.Method?
    case InlineField => operand.Field?
    case InlineType => operand.Type?
    case InlineTok => operand.Tok?
    case InlineSig => operand.Sig?
    case InlineString => operand.String?
  }

  function NextOffset(i: Instruction): u32 {
    (i.offset + i.size) % 0x1_0000_0000
  }

  /** An instruction the decoder could have produced: known opcode, fitting operand, honest size. */
  predicate WellFormed(i: Instruction) {
    && Known(i.opcode)
    && WellTyped(i.opcode, i.operand, NextOffset(i))
    && i.size == |OpBytes(i.opcode)| + |PutOperand(i.opcode, i.operand, NextOffset(i))|
  }

  function Encode(i: Instruction): seq<byte>
    requires WellFormed(i)
  {
    OpBytes(i.opcode) + PutOperand(i.opcode, i.operand, NextOffset(i))
  }

  // Operands round trip.

  lemma WrapRoundTrip(a: u32, b: u32)
    ensures WrapAdd(b, WrapSub(a, b)) == a
    ensures WrapSub(WrapAdd(b, a), b) == a
  {}

  lemma ShortBranch(t: u32, next: u32, b: byte)
    ensures WrapAdd(next, ToI8(b)) == t ==>
              (var d := WrapSub(t, next); (d < 0x80 || d >= 0xFFFF_FF80) && d % 0x100 == b)
    ensures (var d := WrapSub(t, next); (d < 0x80 || d >= 0xFFFF_FF80) && d % 0x100 == b) ==>
              WrapAdd(next, ToI8(b)) == t
  {
    var d := WrapSub(t, next);
    if d >= 0xFFFF_FF80 {
      assert d % 0x100 == d - 0xFFFF_FF00;
    }
  }

  lemma SignedBytes(v: int, b: byte, w: u32, l: u64)
    ensures ToI8(b) % 0x100 == b && (-0x80 <= v < 0x80 ==> ToI8(v % 0x100) == v)
    ensures ToI32(w) % 0x1_0000_0000 == w && (-0x8000_0000 <= v < 0x8000_0000 ==> ToI32(v % 0x1_0000_0000) == v)
    ensures ToI64(l) % 0x1_0000_0000_0000_0000 == l
    ensures -0x8000_0000_0000_0000 <= v < 0x8000_0000_0000_0000 ==> ToI64(v % 0x1_0000_0000_0000_0000) == v
  {}

  /** Reading a fixed-size operand and writing it gives its bytes back. */
  lemma {:induction false} PutInterpret(op: OpCode, s: seq<byte>, next: u32)
    requires FixedSize(KindOf(op)) == Some(|s|)
    ensures WellTyped(op, Interpret(op, s, next), next)
    ensures PutOperand(op, Interpret(op, s, next), next) == s
  {
    hide Le16, Le32, Le64, Put16, Put32, Put64, WrapAdd, WrapSub, ToI8, ToI32, ToI64;
    match FixedSize(KindOf(op)).value
    case 0 =>
    case 1 =>
      I8Range(s[0]);
      SignedBytes(0, s[0], 0, 0);
      ShortBranch(WrapAdd(next, ToI8(s[0])), next, s[0]);
    case 2 => Put16Le16(s);
    case 4 =>
      Put32Le32(s);
      SignedBytes(0, 0, Le32(s), 0);
      WrapRoundTrip(Le32(s), next);
      I32Range(Le32(s));
    case 8 =>
      Put64Le64(s);
      SignedBytes(0, 0, 0, Le64(s));
      I64Range(Le64(s));
  }

  lemma I8Range(b: byte)
    ensures -0x80 <= ToI8(b) < 0x80
  {}

  lemma I32Range(w: u32)
    ensures -0x8000_0000 <= ToI32(w) < 0x8000_0000
  {}

  lemma I64Range(w: u64)
    ensures -0x8000_0000_0000_0000 <= ToI64(w) < 0x8000_0000_0000_0000
  {}

  /** Writing a fixed-size operand and reading it gives the operand back. */
  lemma {:induction false} InterpretPut(op: OpCode, operand: Operand, next: u32)
    requires WellTyped(op, operand, next) && KindOf(op) != InlineSwitch
    ensures FixedSize(KindOf(op)) == Some(|PutOperand(op, operand, next)|)
    ensures Interpret(op, PutOperand(op, operand, next), next) == operand
  {
    hide Le16, Le32, Le64, Put16, Put32, Put64, WrapAdd, WrapSub, ToI8, ToI32, ToI64;
    match KindOf(op)
    case InlineNone =>
    case ShortInlineI => SignedBytes(if op == LDC_I4_S then operand.i32 else operand.i8, 0, 0, 0);
    case InlineI => Le32Put32(operand.i32 % 0x1_0000_0000); SignedBytes(operand.i32, 0, 0, 0);
    case InlineI8 => Le64Put64(operand.i64 % 0x1_0000_0000_0000_0000); SignedBytes(operand.i64, 0, 0, 0);
    case ShortInlineR => Le32Put32(operand.r32);
    case InlineR => Le64Put64(operand.r64);
    case ShortInlineVar =>
    case InlineVar => Le16Put16(operand.index);
    case ShortInlineBrTarget => ShortBranch(operand.target, next, WrapSub(operand.target, next) % 0x100);
    case InlineBrTarget =>
      Le32Put32(WrapSub(operand.target, next));
      WrapRoundTrip(operand.target, next);
    case InlineString => Le32Put32(operand.userString);
    case InlineMethod => Le32Put32(operand.token);
    case InlineField => Le32Put32(operand.token);
    case InlineType => Le32Put32(operand.token);
    case InlineTok => Le32Put32(operand.token);
    case InlineSig => Le32Put32(operand.token);
  }

  lemma {:induction false} PutTargetsOfTargets(s: seq<byte>, n: nat, next: u32)
    requires 4 * n <= |s|
    ensures PutTargets(Targets(s, n, next), next) == s[..4 * n]
    decreases n
  {
    hide Le32, Put32, WrapAdd, WrapSub;
    if n == 0 {
    } else {
      var ts := Targets(s[4..], n - 1, next);
      assert Targets(s, n, next)[1..] == ts;
      WrapRoundTrip(Le32(s[..4]), next);
      Put32Le32(s[..4]);
      PutTargetsOfTargets(s[4..], n - 1, next);
      assert s[..4] + s[4..][..4 * (n - 1)] == s[..4 * n];
    }
  }

  lemma {:induction false} TargetsOfPutTargets(ts: seq<u32>, next: u32, rest: seq<byte>)
    ensures Targets(PutTargets(ts, next) + rest, |ts|, next) == ts
  {
    hide Le32, Put32, WrapAdd, WrapSub;
    if ts == [] {
    } else {
      var d := WrapSub(ts[0], next);
      var s := PutTargets(ts, next) + rest;
      assert s[..4] == Put32(d);
      assert s[4..] == PutTargets(ts[1..], next) + rest;
      Le32Put32(d);
      WrapRoundTrip(ts[0], next);
      TargetsOfPutTargets(ts[1..], next, rest);
    }
  }

  // Instructions round trip.

  lemma DecodeOperandSound(op: OpCode, s: seq<byte>, at: nat)
    requires DecodeOperand(op, s, at).Ok?
    ensures var (operand, used) := DecodeOperand(op, s, at).value;
            var next := (at + used) % 0x1_0000_0000;
            used <= |s| && WellTyped(op, operand, next) && PutOperand(op, operand, next) == s[..used]
  {
    hide Interpret, Put32, Le32, Targets, PutTargets, FixedSize;
    if FixedSize(KindOf(op)).Some? {
      hide PutOperand, WellTyped;
      var n := FixedSize(KindOf(op)).value;
      PutInterpret(op, s[..n], (at + n) % 0x1_0000_0000);
    } else {
      OnlySwitch(op);
      var count: nat := Le32(s[..4]);
      var next := (at + (4 + 4 * count)) % 0x1_0000_0000;
      PutTargetsOfTargets(s[4..], count, next);
      Put32Le32(s[..4]);
      assert s[..4] + s[4..][..4 * count] == s[..4 + 4 * count];
    }
  }

  lemma OnlySwitch(op: OpCode)
    ensures FixedSize(KindOf(op)).None? <==> KindOf(op) == InlineSwitch
  {}

  lemma DecodeOperandComplete(op: OpCode, operand: Operand, at: nat, rest: seq<byte>)
    requires at < 0x1_0000_0000
    requires var used := OperandSize(op, operand); WellTyped(op, operand, (at + used) % 0x1_0000_0000)
    ensures var used := OperandSize(op, operand);
            && |PutOperand(op, operand, (at + used) % 0x1_0000_0000)| == used
            && DecodeOperand(op, PutOperand(op, operand, (at + used) % 0x1_0000_0000) + rest, at) == Ok((operand, used))
  {
    hide Interpret, Put32, Le32, Targets, PutTargets, FixedSize, WellTyped;
    var used := OperandSize(op, operand);
    var next := (at + used) % 0x1_0000_0000;
    var s := PutOperand(op, operand, next) + rest;
    OnlySwitch(op);
    if KindOf(op) == InlineSwitch {
      SwitchBytes(op, operand, next);
      var count := |operand.targets|;
      assert s[..4] == Put32(count);
      assert s[4..] == PutTargets(operand.targets, next) + rest;
      Le32Put32(count);
      TargetsOfPutTargets(operand.targets, next, rest);
    } else {
      hide PutOperand;
      InterpretPut(op, operand, next);
      assert s[..used] == PutOperand(op, operand, next);
    }
  }

  lemma SwitchBytes(op: OpCode, operand: Operand, next: u32)
    requires KindOf(op) == InlineSwitch && WellTyped(op, operand, next)
    ensures operand.Switch? && |operand.targets| < 0x1_0000_0000
    ensures PutOperand(op, operand, next) == Put32(|operand.targets|) + PutTargets(operand.targets, next)
  {}

  function OperandSize(op: OpCode, operand: Operand): nat {
    match FixedSize(KindOf(op))
    case Some(n) => n
    case None => if operand.Switch? then 4 + 4 * |operand.targets| else 0
  }

  lemma FromBytesOpBytes(op: OpCode, rest: seq<byte>)
    requires Known(op)
    ensures FromBytes(OpBytes(op) + rest) == Ok((op, |OpBytes(op)|))
  {}

  lemma FromBytesSound(s: seq<byte>)
    requires FromBytes(s).Ok?
    ensures var (op, n) := FromBytes(s).value;
            Known(op) && 1 <= n <= |s| && OpBytes(op) == s[..n]
  {}

  /** Disassembly loses nothing: re-encoding a decoded instruction gives its bytes back. */
  lemma {:induction false} EncodeDecode(code: seq<byte>, offset: u32)
    requires Decode(code, offset).Ok?
    ensures var i := Decode(code, offset).value;
            && i.offset == offset && 1 <= i.size && offset + i.size <= |code|
            && WellFormed(i) && Encode(i) == code[offset..offset + i.size]
  {
    hide Known, WellTyped, PutOperand, DecodeOperand, FromBytes, OpBytes;
    var rest := code[offset..];
    var (op, n) := FromBytes(rest).value;
    FromBytesSound(rest);
    DecodeOperandSound(op, rest[n..], offset + n);
    var (operand, used) := DecodeOperand(op, rest[n..], offset + n).value;
    assert (offset + n) + used == offset + (n + used);
    assert rest[..n] + rest[n..][..used] == rest[..n + used];
    assert rest[..n + used] == code[offset..offset + (n + used)];
  }

  /** Assembly is faithful: decoding the bytes of a well-formed instruction gives it back. */
  lemma {:induction false} DecodeEncode(before: seq<byte>, i: Instruction, after: seq<byte>)
    requires WellFormed(i) && i.offset == |before| && i.offset + |OpBytes(i.opcode)| < 0x1_0000_0000
    ensures Decode(before + Encode(i) + after, i.offset) == Ok(i)
  {
    hide Known, WellTyped, PutOperand, DecodeOperand, FromBytes, OpBytes;
    var op, n := i.opcode, |OpBytes(i.opcode)|;
    var code := before + Encode(i) + after;
    var tail := PutOperand(op, i.operand, NextOffset(i)) + after;
    assert code[i.offset..] == OpBytes(op) + tail;
    FromBytesOpBytes(op, tail);
    assert (OpBytes(op) + tail)[n..] == tail;
    SizeIs(op, i.operand, NextOffset(i));
    DecodeOperandComplete(op, i.operand, i.offset + n, after);
  }

  lemma SizeIs(op: OpCode, operand: Operand, next: u32)
    requires WellTyped(op, operand, next)
    ensures |PutOperand(op, operand, next)| == OperandSize(op, operand)
  {
    hide Put32, Put16, Put64, WrapSub, PutTargets;
    if KindOf(op) == InlineSwitch {
      SwitchBytes(op, operand, next);
    } else {
      InterpretPut(op, operand, next);
    }
  }

  // What does not decode.

  /**
   * Inside the code, what does not decode is truncated exactly when some more bytes would complete it;
   * otherwise its first byte, or the byte behind the escape, is no opcode. Past the end of the code
   * it is out of range.
   */
  lemma {:induction false} DecodeRefused(code: seq<byte>, offset: u32)
    ensures offset > |code| ==> Decode(code, offset) == Err(OutOfRange)
    ensures offset <= |code| ==>
              (Decode(code, offset) == Err(Truncated) <==>
                Decode(code, offset).Err? && exists e :: Decode(code + e, offset).Ok?)
    ensures offset <= |code| && Decode(code, offset).Err? && Decode(code, offset) != Err(Truncated) ==>
              && Decode(code, offset) == Err(UnknownOpcode)
              && var rest := code[offset..];
                 if rest[0] == 0xFE then !Known(Two(rest[1])) else !Known(One(rest[0]))
  {
    if offset <= |code| {
      var rest := code[offset..];
      if Decode(code, offset) == Err(Truncated) {
        var e := Completion(rest);
        Continued(code, offset, e);
      } else if Decode(code, offset).Err? {
        OperandError();
        forall e ensures Decode(code + e, offset).Err? {
          Continued(code, offset, e);
        }
      }
    }
  }

  lemma Continued(code: seq<byte>, offset: u32, e: seq<byte>)
    requires offset <= |code|
    ensures (code + e)[offset..] == code[offset..] + e
  {}

  lemma OperandError()
    ensures forall op, s, at :: DecodeOperand(op, s, at).Err? ==> DecodeOperand(op, s, at) == Err(Truncated)
  {
    hide Interpret, Targets;
  }

  /** Bytes that complete an instruction cut short. */
  lemma Completion(rest: seq<byte>) returns (e: seq<byte>)
    requires FromBytes(rest) == Err(Truncated)
             || (FromBytes(rest).Ok? && DecodeOperand(FromBytes(rest).value.0, rest[FromBytes(rest).value.1..], 0).Err?)
    ensures FromBytes(rest + e).Ok?
    ensures var (op, n) := FromBytes(rest + e).value; forall at: nat :: DecodeOperand(op, (rest + e)[n..], at).Ok?
  {
    if FromBytes(rest).Ok? {
      var (op, n) := FromBytes(rest).value;
      e := OperandCompletion(op, rest[n..]);
      assert (rest + e)[n..] == rest[n..] + e;
    } else {
      e := [0x00];
      assert rest + e == [0x00] || rest + e == [0xFE, 0x00];
    }
  }

  lemma OperandCompletion(op: OpCode, s: seq<byte>) returns (e: seq<byte>)
    ensures forall at: nat :: DecodeOperand(op, s + e, at).Ok?
  {
    hide Interpret, Targets, Le32;
    match FixedSize(KindOf(op))
    case Some(n) => e := seq(n, i => 0);
    case None =>
      var head := s + [0, 0, 0, 0];
      var count: nat := Le32(head[..4]);
      e := [0, 0, 0, 0] + seq(4 * count, i => 0);
      assert (s + e)[..4] == head[..4];
  }
}
