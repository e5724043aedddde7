/** Machine integers, little-endian fields, and the suffix view of a byte slice. */
module Bytes {
  type byte = x: int | 0 <= x < 0x100
  type u16 = x: int | 0 <= x < 0x1_0000
  type u32 = x: int | 0 <= x < 0x1_0000_0000
  type u64 = x: int | 0 <= x < 0x1_0000_0000_0000_0000

  function Max(a: nat, b: nat): nat {
    if a < b then b else a
  }

  // Little-endian values of two, three, four and eight bytes.

  function Le16(s: seq<byte>): u16
    requires |s| == 2
  {
    s[0] as int + 0x100 * s[1] as int
  }

  function Le24(s: seq<byte>): (v: u32)
    requires |s| == 3
    ensures v < 0x100_0000
  {
    s[0] as int + 0x100 * Le16(s[1..])
  }

  function Le32(s: seq<byte>): u32
    requires |s| == 4
  {
    s[0] as int + 0x100 * Le24(s[1..])
  }

  function Le64(s: seq<byte>): u64
    requires |s| == 8
  {
    Le32(s[..4]) as int + 0x1_0000_0000 * Le32(s[4..]) as int
  }

  function Put16(v: u16): (s: seq<byte>)
    ensures |s| == 2
  {
    [v % 0x100, v / 0x100]
  }

  function Put24(v: int): (s: seq<byte>)
    requires 0 <= v < 0x100_0000
    ensures |s| == 3
  {
    [v % 0x100] + Put16(v / 0x100)
  }

  function Put32(v: u32): (s: seq<byte>)
    ensures |s| == 4
  {
    [v % 0x100] + Put24(v / 0x100)
  }

  function Put64(v: u64): (s: seq<byte>)
    ensures |s| == 8
  {
    Put32(v % 0x1_0000_0000) + Put32(v / 0x1_0000_0000)
  }

  // Reading and writing a little-endian field undo each other.

  lemma Le16Put16(v: u16)
    ensures Le16(Put16(v)) == v
  {}

  lemma Put16Le16(s: seq<byte>)
    requires |s| == 2
    ensures Put16(Le16(s)) == s
  {}

  lemma Le24Put24(v: int)
    requires 0 <= v < 0x100_0000
    ensures Le24(Put24(v)) == v
  {
    hide Le16, Put16;
    Le16Put16(v / 0x100);
    assert Put24(v)[1..] == Put16(v / 0x100);
  }

  lemma SplitByte(b: byte, w: u32)
    ensures (b + 0x100 * w) % 0x100 == b && (b + 0x100 * w) / 0x100 == w
  {}

  lemma Put24Le24(s: seq<byte>)
    requires |s| == 3
    ensures Put24(Le24(s)) == s
  {
    hide Le16, Put16;
    SplitByte(s[0], Le16(s[1..]));
    Put16Le16(s[1..]);
    assert s == [s[0]] + s[1..];
  }

  lemma Le32Put32(v: u32)
    ensures Le32(Put32(v)) == v
  {
    hide Le24, Put24;
    Le24Put24(v / 0x100);
    assert Put32(v)[1..] == Put24(v / 0x100);
  }

  lemma {:induction false} Put32Le32(s: seq<byte>)
    requires |s| == 4
    ensures Put32(Le32(s)) == s
  {
    hide Le24, Put24;
    SplitByte(s[0], Le24(s[1..]));
    Put24Le24(s[1..]);
    assert s == [s[0]] + s[1..];
  }

  lemma Le64Put64(v: u64)
    ensures Le64(Put64(v)) == v
  {
    hide Le32, Put32;
    Le32Put32(v % 0x1_0000_0000);
    Le32Put32(v / 0x1_0000_0000);
    assert Put64(v)[..4] == Put32(v % 0x1_0000_0000);
    assert Put64(v)[4..] == Put32(v / 0x1_0000_0000);
  }

  lemma SplitWords(lo: u32, hi: u32)
    ensures (lo + 0x1_0000_0000 * hi) % 0x1_0000_0000 == lo
    ensures (lo + 0x1_0000_0000 * hi) / 0x1_0000_0000 == hi
  {}

  lemma {:induction false} Put64Le64(s: seq<byte>)
    requires |s| == 8
    ensures Put64(Le64(s)) == s
  {
    hide Le32, Put32;
    var lo, hi := Le32(s[..4]), Le32(s[4..]);
    var v := Le64(s);
    assert v % 0x1_0000_0000 == lo && v / 0x1_0000_0000 == hi by {
      SplitWords(lo, hi);
    }
    Put32Le32(s[..4]);
    Put32Le32(s[4..]);
    assert s == s[..4] + s[4..];
  }

  // Two's complement.

  function ToI8(b: byte): int {
    if b < 0x80 then b else b - 0x100
  }

  function ToI32(v: u32): int {
    if v < 0x8000_0000 then v else v - 0x1_0000_0000
  }

  function ToI64(v: u64): int {
    if v < 0x8000_0000_0000_0000 then v else v - 0x1_0000_0000_0000_0000
  }

  // A cursor that only moves forward leaves a suffix of what it was given.

  ghost predicate SuffixOf(r: seq<byte>, s: seq<byte>) {
    |r| <= |s| && s[|s| - |r|..] == r
  }

  lemma SuffixTrans(r: seq<byte>, m: seq<byte>, s: seq<byte>)
    requires SuffixOf(r, m) && SuffixOf(m, s)
    ensures SuffixOf(r, s)
  {
    var k := |s| - |m|;
    assert s[|s| - |r|..] == s[k..][|m| - |r|..];
  }

  lemma Reassociate(a: seq<byte>, b: seq<byte>, c: seq<byte>)
    ensures a + (b + c) == a + b + c
  {}
}
