/**
 * The raw instruction stream (src/il/mod.rs, `decode_at` and `InstructionIter`): what it yields,
 * that its spans tile the code, and that assembling and disassembling undo each other.
 */
module IlStream {
  import opened Wrappers
  import opened Bytes
  import opened Readers
  import opened IlDecode

  /** What an iterator of fallible items has left to yield: after a fault it yields nothing more. */
  datatype Stream<+T> = End | Fault(error: ErrorKind) | Item(head: T, tail: Stream<T>)

  /** One call of `next`: what it returns, and what is left afterwards. */
  ghost predicate Yields<T(!new)>(before: Stream<T>, r: Option<Result<T>>, after: Stream<T>) {
    match before
    case End => r == None && after == End
    case Fault(e) => r == Some(Err(e)) && after == End
    case Item(x, tail) => r == Some(Ok(x)) && after == tail
  }

  /** The instructions of `code` from `offset` on, up to the first fault. */
  function RawStream(code: seq<byte>, offset: u32): Stream<Instruction>
    decreases |code| - offset
  {
    if offset >= |code| then End
    else
      match Decode(code, offset)
      case Err(e) => Fault(e)
      case Ok(i) =>
        var next := NextOffset(i);
        Item(i, if next <= offset then End else RawStream(code, next))
  }

  ghost predicate Clean<T>(s: Stream<T>) {
    match s
    case End => true
    case Fault(_) => false
    case Item(_, tail) => Clean(tail)
  }

  function Items<T>(s: Stream<T>): seq<T> {
    match s
    case Item(x, tail) => [x] + Items(tail)
    case _ => []
  }

  function StreamOf<T>(xs: seq<T>): Stream<T> {
    if xs == [] then End else Item(xs[0], StreamOf(xs[1..]))
  }

  // The spans tile the code.

  /** Contiguous, strictly advancing, decodable instructions from `at`, ending exactly at `end` unless a fault comes first. */
  ghost predicate Tiles(s: Stream<Instruction>, at: nat, end: nat) {
    match s
    case End => at == end
    case Fault(_) => at < end
    case Item(i, tail) =>
      i.offset == at && 1 <= i.size && at + i.size <= end && WellFormed(i) && Tiles(tail, at + i.size, end)
  }

  function TotalSize(s: Stream<Instruction>): nat {
    match s
    case Item(i, tail) => i.size + TotalSize(tail)
    case _ => 0
  }

  /** On any bytes the raw stream tiles the code; without a fault the sizes sum to its length. */
  lemma {:induction false} RawStreamTiles(code: seq<byte>, offset: u32)
    requires |code| < 0x1_0000_0000 && offset <= |code|
    ensures Tiles(RawStream(code, offset), offset, |code|)
    ensures Clean(RawStream(code, offset)) ==> TotalSize(RawStream(code, offset)) == |code| - offset
    decreases |code| - offset
  {
    hide Decode, WellFormed, Encode;
    if offset < |code| && Decode(code, offset).Ok? {
      EncodeDecode(code, offset);
      RawStreamTiles(code, NextOffset(Decode(code, offset).value));
    }
  }

  // Disassembling and assembling.

  function Assemble(s: Stream<Instruction>): seq<byte>
    requires forall i | i in Items(s) :: WellFormed(i)
  {
    match s
    case Item(i, tail) =>
      assert forall j | j in Items(tail) :: j in Items(s);
      assert i in Items(s);
      Encode(i) + Assemble(tail)
    case _ => []
  }

  /** Everything the decoder yields is well formed. */
  lemma {:induction false} RawWellFormed(code: seq<byte>, offset: u32)
    ensures forall i | i in Items(RawStream(code, offset)) :: WellFormed(i)
    decreases |code| - offset
  {
    hide Decode, WellFormed, Encode;
    if offset < |code| && Decode(code, offset).Ok? {
      EncodeDecode(code, offset);
      var next := NextOffset(Decode(code, offset).value);
      if next > offset {
        RawWellFormed(code, next);
      }
    }
  }

  /** Every instruction before the first fault re-encodes to its own bytes; without a fault, to all of them. */
  lemma {:induction false} DisassemblyLossless(code: seq<byte>, offset: u32)
    requires |code| < 0x1_0000_0000 && offset <= |code|
    ensures forall i | i in Items(RawStream(code, offset)) :: WellFormed(i)
    ensures var n := offset + TotalSize(RawStream(code, offset));
            n <= |code| && Assemble(RawStream(code, offset)) == code[offset..n]
    ensures Clean(RawStream(code, offset)) ==> Assemble(RawStream(code, offset)) == code[offset..]
    decreases |code| - offset
  {
    hide Decode, WellFormed, Encode;
    RawWellFormed(code, offset);
    if offset < |code| && Decode(code, offset).Ok? {
      EncodeDecode(code, offset);
      var i := Decode(code, offset).value;
      var n := offset + i.size;
      assert RawStream(code, offset) == Item(i, RawStream(code, n));
      hide RawStream;
      DisassemblyLossless(code, n);
      var m := n + TotalSize(RawStream(code, n));
      assert code[offset..n] + code[n..m] == code[offset..m];
    }
  }

  /** `xs` lies contiguously from `at` on, within the 32-bit offsets. */
  ghost predicate Contiguous(xs: seq<Instruction>, at: nat) {
    xs == [] || (
      && WellFormed(xs[0]) && xs[0].offset == at && at + xs[0].size < 0x1_0000_0000
      && Contiguous(xs[1..], at + xs[0].size))
  }

  function AssembleAll(xs: seq<Instruction>): seq<byte>
    requires forall i | i in xs :: WellFormed(i)
  {
    if xs == [] then [] else Encode(xs[0]) + AssembleAll(xs[1..])
  }

  lemma {:induction false} ContiguousWellFormed(xs: seq<Instruction>, at: nat)
    requires Contiguous(xs, at)
    ensures forall i | i in xs :: WellFormed(i)
  {
    hide WellFormed;
    if xs == [] {
    } else {
      ContiguousWellFormed(xs[1..], at + xs[0].size);
      assert forall i | i in xs :: i == xs[0] || i in xs[1..];
    }
  }

  /** Decoding an assembled instruction list gives exactly that list, and no fault. */
  lemma {:induction false} AssemblyFaithful(before: seq<byte>, xs: seq<Instruction>)
    requires Contiguous(xs, |before|) && |before| < 0x1_0000_0000
    ensures forall i | i in xs :: WellFormed(i)
    ensures RawStream(before + AssembleAll(xs), |before|) == StreamOf(xs)
    decreases xs
  {
    hide Decode, WellFormed, Encode;
    ContiguousWellFormed(xs, |before|);
    if xs == [] {
    } else {
      var i := xs[0];
      var code := before + AssembleAll(xs);
      var after := AssembleAll(xs[1..]);
      assert code == before + Encode(i) + after;
      EncodeLength(i);
      DecodeEncode(before, i, after);
      AssemblyFaithful(before + Encode(i), xs[1..]);
    }
  }

  lemma EncodeLength(i: Instruction)
    requires WellFormed(i)
    ensures |Encode(i)| == i.size && 1 <= |OpBytes(i.opcode)| <= i.size
  {}

  // The decoder and its iterator.

  /** `decode_at`: the opcode, then the operand through a cursor, with the loop over switch deltas. */
  method DecodeAt(code: seq<byte>, offset: u32) returns (r: Result<Instruction>)
    ensures r == Decode(code, offset)
  {
    if offset > |code| {
      return Err(OutOfRange);
    }
    hide FromBytes, KindOf, Interpret, Known;
    var rest := code[offset..];
    var opcode :- FromBytes(rest);
    FromBytesSound(rest);
    var reader := new Reader(rest);
    var _ := reader.Skip(opcode.1);
    var operand :- DecodeOperandAt(reader, opcode.0, offset);
    return Ok(Instruction(offset, reader.pos, opcode.0, operand));
  }

  method DecodeOperandAt(reader: Reader, op: OpCode, offset: u32) returns (r: Result<Operand>)
    requires reader.Valid()
    modifies reader
    ensures reader.Valid()
    ensures match DecodeOperand(op, old(reader.Rest()), offset + old(reader.pos))
            case Ok(v) => r == Ok(v.0) && reader.pos == old(reader.pos) + v.1
            case Err(e) => r == Err(e)
  {
    OnlySwitch(op);
    hide KindOf, Interpret, FixedSize;
    if KindOf(op) == InlineSwitch {
      r := DecodeSwitchAt(reader, op, offset);
    } else {
      var bytes :- reader.Take(FixedSize(KindOf(op)).value);
      return Ok(Interpret(op, bytes, (offset + reader.pos) % 0x1_0000_0000));
    }
  }

  /** The count and the deltas of a `switch`, turned into targets once its end is known. */
  method DecodeSwitchAt(reader: Reader, op: OpCode, offset: u32) returns (r: Result<Operand>)
    requires reader.Valid() && KindOf(op) == InlineSwitch
    modifies reader
    ensures reader.Valid()
    ensures match DecodeOperand(op, old(reader.Rest()), offset + old(reader.pos))
            case Ok(v) => r == Ok(v.0) && reader.pos == old(reader.pos) + v.1
            case Err(e) => r == Err(e)
  {
    OnlySwitch(op);
    hide KindOf, Interpret, Le32, FixedSize;
    var count :- reader.U32();
    if count > reader.Remaining() / 4 {
      return Err(Truncated);
    }
    ghost var body := reader.Rest();
    var deltas := ReadDeltas(reader, count);
    var next := (offset + reader.pos) % 0x1_0000_0000;
    var targets: seq<u32> := seq(count, k requires 0 <= k < count => WrapAdd(next, deltas[k]));
    TargetsAt(body, count, next);
    assert targets == Targets(body, count, next);
    return Ok(Switch(targets));
  }

  method ReadDeltas(reader: Reader, count: nat) returns (deltas: seq<u32>)
    requires reader.Valid() && 4 * count <= |reader.Rest()|
    modifies reader
    ensures reader.Valid() && reader.pos == old(reader.pos) + 4 * count && |deltas| == count
    ensures forall j | 0 <= j < count :: deltas[j] == Le32(old(reader.Rest())[4 * j..4 * j + 4])
  {
    hide Le32;
    deltas := [];
    ghost var body, start := reader.Rest(), reader.pos;
    for k := 0 to count
      invariant reader.Valid() && reader.pos == start + 4 * k && |deltas| == k
      invariant reader.Rest() == body[4 * k..]
      invariant forall j | 0 <= j < k :: deltas[j] == Le32(body[4 * j..4 * j + 4])
    {
      assert body[4 * k..][..4] == body[4 * k..4 * k + 4];
      assert body[4 * k..][4..] == body[4 * (k + 1)..];
      var delta := reader.U32();
      deltas := deltas + [delta.value];
    }
  }

  lemma {:induction false} TargetsAt(s: seq<byte>, n: nat, next: u32)
    requires 4 * n <= |s|
    ensures forall k | 0 <= k < n :: Targets(s, n, next)[k] == WrapAdd(next, Le32(s[4 * k..4 * k + 4]))
    decreases n
  {
    hide Le32, WrapAdd;
    if n == 0 {
    } else {
      TargetsAt(s[4..], n - 1, next);
      forall k | 0 < k < n ensures Targets(s, n, next)[k] == WrapAdd(next, Le32(s[4 * k..4 * k + 4])) {
        assert s[4..][4 * (k - 1)..4 * (k - 1) + 4] == s[4 * k..4 * k + 4];
      }
      assert s[..4] == s[0..4];
    }
  }

  class InstructionIter {
    const code: seq<byte>
    var offset: u32
    var done: bool

    constructor (code: seq<byte>)
      ensures this.code == code && offset == 0 && !done
      ensures Future() == RawStream(code, 0)
    {
      this.code := code;
      offset := 0;
      done := false;
    }

    ghost function Future(): Stream<Instruction>
      reads this
    {
      if done then End else RawStream(code, offset)
    }

    method Next() returns (r: Option<Result<Instruction>>)
      modifies this
      ensures Yields(old(Future()), r, Future())
    {
      hide Decode;
      if done || offset >= |code| {
        return None;
      }
      var decoded := DecodeAt(code, offset);
      match decoded
      case Ok(i) =>
        var next := NextOffset(i);
        if next <= offset {
          done := true;
        } else {
          offset := next;
        }
        return Some(Ok(i));
      case Err(e) =>
        done := true;
        return Some(Err(e));
    }

    /** The loop of `instruction_offsets` of src/body.rs. */
    method Offsets() returns (offsets: seq<u32>)
      modifies this
      ensures offsets == OffsetsOf(old(Future()))
    {
      hide RawStream;
      offsets := [];
      ghost var all := Future();
      while true
        invariant OffsetsOf(all) == offsets + OffsetsOf(Future())
        decreases Future()
      {
        var item := Next();
        if item == None || item.value.Err? {
          return;
        }
        OffsetNext(offsets, item.value.value.offset, OffsetsOf(Future()));
        offsets := offsets + [item.value.value.offset];
      }
    }
  }

  // Instruction boundaries.

  /** Where the instructions before the first fault start. */
  function OffsetsOf(s: Stream<Instruction>): seq<u32> {
    match s
    case Item(i, tail) => [i.offset] + OffsetsOf(tail)
    case _ => []
  }

  lemma {:induction false} OffsetsAreItems(s: Stream<Instruction>)
    ensures |OffsetsOf(s)| == |Items(s)| && forall k | 0 <= k < |Items(s)| :: OffsetsOf(s)[k] == Items(s)[k].offset
  {
    match s
    case Item(_, tail) => OffsetsAreItems(tail);
    case _ =>
  }

  lemma OffsetNext(done: seq<u32>, x: u32, rest: seq<u32>)
    ensures done + ([x] + rest) == (done + [x]) + rest
  {}

  /** The first instruction starts where decoding does, and every later one after it. */
  lemma {:induction false} OffsetsAdvance(code: seq<byte>, at: u32)
    ensures forall x | x in OffsetsOf(RawStream(code, at)) :: at <= x
    ensures RawStream(code, at).Item? ==>
              && RawStream(code, at).head.offset == at
              && forall x | x in OffsetsOf(RawStream(code, at).tail) :: at < x
    decreases |code| - at
  {
    hide Decode, WellFormed, Encode;
    if at < |code| && Decode(code, at).Ok? {
      EncodeDecode(code, at);
      var next := NextOffset(Decode(code, at).value);
      if next > at {
        OffsetsAdvance(code, next);
      }
    }
  }

  /**
   * `is_instruction_boundary` of src/body.rs: the scan that gives up as soon as it has passed the
   * offset agrees with the list of all offsets.
   */
  method IsInstructionBoundary(code: seq<byte>, offset: u32) returns (found: bool)
    ensures found <==> offset in OffsetsOf(RawStream(code, 0))
  {
    hide RawStream;
    var iter := new InstructionIter(code);
    while true
      invariant iter.code == code
      invariant offset in OffsetsOf(RawStream(code, 0)) <==> offset in OffsetsOf(iter.Future())
      decreases iter.Future()
    {
      OffsetsAdvance(code, iter.offset);
      var item := iter.Next();
      match item
      case None => return false;
      case Some(Err(_)) => return false;
      case Some(Ok(i)) =>
        if i.offset == offset {
          return true;
        }
        if i.offset > offset {
          return false;
        }
    }
  }
}
