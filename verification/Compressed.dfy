/** Compressed integers (src/compressed.rs, section II.23.2 of ECMA-335). */
module Compressed {
  import opened Wrappers
  import opened Bytes

  const MAX_COMPRESSED_U32: u32 := 0x1FFF_FFFF

  function BigEndian4(b0: byte, b1: byte, b2: byte, b3: byte): int {
    ((b0 as int * 0x100 + b1) * 0x100 + b2) * 0x100 + b3
  }

  lemma BigEndian4OfDigits(raw: u32)
    requires raw <= MAX_COMPRESSED_U32
    ensures BigEndian4(raw / 0x100 / 0x100 / 0x100, raw / 0x100 / 0x100 % 0x100, raw / 0x100 % 0x100, raw % 0x100) == raw
  {
    var q := raw / 0x100;
    assert raw == q * 0x100 + raw % 0x100;
    assert q == q / 0x100 * 0x100 + q % 0x100;
  }

  /** The unsigned integer `s` starts with, and how many bytes it takes. */
  function ReadU32(s: seq<byte>): (r: Result<(u32, nat)>)
    ensures r.Ok? ==> r.value.0 <= MAX_COMPRESSED_U32 && 1 <= r.value.1 <= |s|
  {
    if |s| == 0 then Err(Truncated)
    else if s[0] < 0x80 then Ok((s[0], 1))
    else if s[0] < 0xC0 then
      if |s| < 2 then Err(Truncated)
      else Ok(((s[0] as int - 0x80) * 0x100 + s[1], 2))
    else if s[0] < 0xE0 then
      if |s| < 4 then Err(Truncated)
      else Ok((BigEndian4(s[0] - 0xC0, s[1], s[2], s[3]), 4))
    else Err(Malformed)
  }

  /** An odd `raw` stands for a negative value: half of it, less the weight of the sign. */
  function Rotate(raw: u32, signBit: u32): int {
    if raw % 2 != 0 then raw / 2 - signBit else raw / 2
  }

  function SignBit(width: nat): u32 {
    if width == 1 then 0x40 else if width == 2 then 0x2000 else 0x1000_0000
  }

  /** The signed integer `s` starts with: the unsigned reading, rotated back at its own width. */
  function ReadI32(s: seq<byte>): (r: Result<(int, nat)>)
    ensures r.Ok? ==> -0x1000_0000 <= r.value.0 < 0x1000_0000 && 1 <= r.value.1 <= |s|
  {
    var (raw, used) :- ReadU32(s);
    Ok((Rotate(raw, SignBit(used)), used))
  }

  /** The big-endian form of `raw` in one, two or four bytes, with the width tag on top. */
  function PutWidth(raw: u32, width: nat): (s: seq<byte>)
    requires (width == 1 && raw < 0x80) || (width == 2 && raw < 0x4000) || (width == 4 && raw <= MAX_COMPRESSED_U32)
    ensures |s| == width
  {
    if width == 1 then [raw]
    else if width == 2 then [0x80 + raw / 0x100, raw % 0x100]
    else [0xC0 + raw / 0x100 / 0x100 / 0x100, raw / 0x100 / 0x100 % 0x100, raw / 0x100 % 0x100, raw % 0x100]
  }

  /** The shortest encoding of an unsigned value. */
  function EncodeU32(v: u32): (s: seq<byte>)
    requires v <= MAX_COMPRESSED_U32
    ensures 1 <= |s| <= 4
  {
    PutWidth(v, if v < 0x80 then 1 else if v < 0x4000 then 2 else 4)
  }

  /** Rotates the sign of `v` into bit 0 at a width whose sign bit is `signBit`. */
  function Unrotate(v: int, signBit: u32): u32
    requires -(signBit as int) <= v < signBit <= 0x1000_0000
  {
    if v >= 0 then 2 * v else 2 * (v + signBit) + 1
  }

  /** The shortest encoding of a signed value, as section II.23.2 prescribes it. */
  function EncodeI32(v: int): (s: seq<byte>)
    requires -0x1000_0000 <= v < 0x1000_0000
    ensures 1 <= |s| <= 4
  {
    if -0x40 <= v < 0x40 then PutWidth(Unrotate(v, 0x40), 1)
    else if -0x2000 <= v < 0x2000 then PutWidth(Unrotate(v, 0x2000), 2)
    else PutWidth(Unrotate(v, 0x1000_0000), 4)
  }

  lemma ReadPutWidth(raw: u32, width: nat, rest: seq<byte>)
    requires (width == 1 && raw < 0x80) || (width == 2 && raw < 0x4000) || (width == 4 && raw <= MAX_COMPRESSED_U32)
    ensures ReadU32(PutWidth(raw, width) + rest) == Ok((raw, width))
  {
    if width == 4 {
      BigEndian4OfDigits(raw);
    }
  }

  /** Reading undoes writing, whatever follows. */
  lemma ReadEncodeU32(v: u32, rest: seq<byte>)
    requires v <= MAX_COMPRESSED_U32
    ensures ReadU32(EncodeU32(v) + rest) == Ok((v, |EncodeU32(v)|))
  {
    ReadPutWidth(v, if v < 0x80 then 1 else if v < 0x4000 then 2 else 4, rest);
  }

  lemma ReadEncodeI32(v: int, rest: seq<byte>)
    requires -0x1000_0000 <= v < 0x1000_0000
    ensures ReadI32(EncodeI32(v) + rest) == Ok((v, |EncodeI32(v)|))
  {
    if -0x40 <= v < 0x40 {
      ReadPutWidth(Unrotate(v, 0x40), 1, rest);
    } else if -0x2000 <= v < 0x2000 {
      ReadPutWidth(Unrotate(v, 0x2000), 2, rest);
    } else {
      ReadPutWidth(Unrotate(v, 0x1000_0000), 4, rest);
    }
  }

  /** A read that succeeds depends on no byte past the ones it used. */
  lemma ReadU32Stable(s: seq<byte>, e: seq<byte>)
    requires ReadU32(s).Ok?
    ensures ReadU32(s + e) == ReadU32(s)
  {}

  /** No accepted spelling of a value is shorter than the one `EncodeU32` writes. */
  lemma EncodeU32Shortest(s: seq<byte>)
    requires ReadU32(s).Ok?
    ensures |EncodeU32(ReadU32(s).value.0)| <= ReadU32(s).value.1
  {}

  // The encodings a value has: one in every width that holds it.

  /** `s` is an encoding of `v` followed by `rest`. */
  ghost predicate SpellsU(s: seq<byte>, v: nat, rest: seq<byte>) {
    || (v < 0x80 && s == PutWidth(v, 1) + rest)
    || (v < 0x4000 && s == PutWidth(v, 2) + rest)
    || (v <= MAX_COMPRESSED_U32 && s == PutWidth(v, 4) + rest)
  }

  ghost predicate SpellsI(s: seq<byte>, v: int, rest: seq<byte>) {
    || (-0x40 <= v < 0x40 && s == PutWidth(Unrotate(v, 0x40), 1) + rest)
    || (-0x2000 <= v < 0x2000 && s == PutWidth(Unrotate(v, 0x2000), 2) + rest)
    || (-0x1000_0000 <= v < 0x1000_0000 && s == PutWidth(Unrotate(v, 0x1000_0000), 4) + rest)
  }

  lemma SpelledTail(s: seq<byte>, v: nat, i: int, rest: seq<byte>)
    ensures SpellsU(s, v, rest) || SpellsI(s, i, rest) ==> |s| > |rest| && s[|s| - |rest|..] == rest
  {}

  lemma WidthOf(s: seq<byte>)
    requires ReadU32(s).Ok?
    ensures var (v, used) := ReadU32(s).value;
            && ((used == 1 && v < 0x80) || (used == 2 && v < 0x4000) || used == 4)
            && s == PutWidth(v, used) + s[used..]
  {}

  /** Reading gives a value exactly when the bytes are one of its encodings. */
  lemma {:induction false} ReadU32Exact(s: seq<byte>, v: nat, used: nat)
    ensures ReadU32(s) == Ok((v, used)) <==> 1 <= used <= |s| && SpellsU(s, v, s[used..])
  {
    if ReadU32(s) == Ok((v, used)) {
      WidthOf(s);
    }
    hide PutWidth;
    if 1 <= used <= |s| {
      var rest := s[used..];
      if v < 0x80 && s == PutWidth(v, 1) + rest {
        ReadPutWidth(v, 1, rest);
      } else if v < 0x4000 && s == PutWidth(v, 2) + rest {
        ReadPutWidth(v, 2, rest);
      } else if v <= MAX_COMPRESSED_U32 && s == PutWidth(v, 4) + rest {
        ReadPutWidth(v, 4, rest);
      }
    }
  }

  /** What is not accepted is truncated when some bytes would complete it, and malformed when none would. */
  lemma {:induction false} ReadU32Refuses(s: seq<byte>)
    ensures ReadU32(s) == Err(Truncated) <==> ReadU32(s).Err? && exists e :: ReadU32(s + e).Ok?
    ensures ReadU32(s).Err? && ReadU32(s).error != Truncated ==> ReadU32(s) == Err(Malformed)
  {
    if ReadU32(s) == Err(Truncated) {
      assert ReadU32(s + [0, 0, 0, 0]).Ok?;
    }
  }

  lemma RotateExact(raw: u32, signBit: u32, v: int)
    requires signBit <= 0x1000_0000 && raw < 2 * signBit
    ensures Rotate(raw, signBit) == v <==> -(signBit as int) <= v < signBit && Unrotate(v, signBit) == raw
  {}

  lemma ISound(s: seq<byte>)
    requires ReadI32(s).Ok?
    ensures SpellsI(s, ReadI32(s).value.0, s[ReadI32(s).value.1..])
  {
    WidthOf(s);
    hide PutWidth, Unrotate, Rotate;
    var (raw, used) := ReadU32(s).value;
    RotateExact(raw, SignBit(used), ReadI32(s).value.0);
  }

  lemma IAtWidth(v: int, signBit: u32, width: nat, rest: seq<byte>)
    requires (signBit == 0x40 && width == 1) || (signBit == 0x2000 && width == 2) || (signBit == 0x1000_0000 && width == 4)
    requires -(signBit as int) <= v < signBit
    ensures ReadI32(PutWidth(Unrotate(v, signBit), width) + rest) == Ok((v, width))
  {
    hide PutWidth, ReadU32;
    ReadPutWidth(Unrotate(v, signBit), width, rest);
    RotateExact(Unrotate(v, signBit), signBit, v);
  }

  lemma {:induction false} ReadI32Exact(s: seq<byte>, v: int, used: nat)
    ensures ReadI32(s) == Ok((v, used)) <==> 1 <= used <= |s| && SpellsI(s, v, s[used..])
  {
    hide PutWidth, ReadI32;
    if ReadI32(s) == Ok((v, used)) {
      ISound(s);
    }
    if 1 <= used <= |s| {
      var rest := s[used..];
      if -0x40 <= v < 0x40 && s == PutWidth(Unrotate(v, 0x40), 1) + rest {
        IAtWidth(v, 0x40, 1, rest);
      } else if -0x2000 <= v < 0x2000 && s == PutWidth(Unrotate(v, 0x2000), 2) + rest {
        IAtWidth(v, 0x2000, 2, rest);
      } else if -0x1000_0000 <= v < 0x1000_0000 && s == PutWidth(Unrotate(v, 0x1000_0000), 4) + rest {
        IAtWidth(v, 0x1000_0000, 4, rest);
      }
    }
  }

  /** Writes `value` into the front of `out`; nothing is written when it is too large. */
  method WriteU32(value: u32, out: array<byte>) returns (n: Option<nat>)
    requires out.Length == 4
    modifies out
    ensures value > MAX_COMPRESSED_U32 ==> n == None && out[..] == old(out[..])
    ensures value <= MAX_COMPRESSED_U32 ==>
              n == Some(|EncodeU32(value)|)
              && out[..] == EncodeU32(value) + old(out[..])[|EncodeU32(value)|..]
  {
    if value < 0x80 {
      out[0] := value;
      n := Some(1);
    } else if value < 0x4000 {
      out[0] := 0x80 + value / 0x100;
      out[1] := value % 0x100;
      n := Some(2);
    } else if value <= MAX_COMPRESSED_U32 {
      out[0] := 0xC0 + value / 0x100 / 0x100 / 0x100;
      out[1] := value / 0x100 / 0x100 % 0x100;
      out[2] := value / 0x100 % 0x100;
      out[3] := value % 0x100;
      n := Some(4);
    } else {
      n := None;
    }
  }
}
