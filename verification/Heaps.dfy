/** The `#Blob` and `#Strings` heaps (src/heaps.rs, sections II.24.2.3 and II.24.2.4 of ECMA-335). */
module Heaps {
  import opened Wrappers
  import opened Bytes
  import opened Compressed

  /** The blob at `index` and its total encoded size. */
  function GetWithSize(heap: seq<byte>, index: nat): (r: Result<(seq<byte>, nat)>)
    ensures r.Ok? ==> 1 <= r.value.1 && index + r.value.1 <= |heap|
  {
    if index > |heap| then Err(OutOfRange)
    else
      var rest := heap[index..];
      var (len, used) :- ReadU32(rest);
      if used + len > |rest| then Err(OutOfRange)
      else Ok((rest[used..used + len], used + len))
  }

  function Get(heap: seq<byte>, index: nat): Result<seq<byte>> {
    var (blob, _) :- GetWithSize(heap, index);
    Ok(blob)
  }

  /** The blobs from `pos` on with their indices; an entry that does not decode ends the list. */
  function Blobs(heap: seq<byte>, pos: nat): seq<(nat, seq<byte>)>
    decreases |heap| - pos
  {
    if pos >= |heap| then []
    else
      match GetWithSize(heap, pos)
      case Err(_) => []
      case Ok(v) => if pos + v.1 > 0xFFFF_FFFF then [] else [(pos, v.0)] + Blobs(heap, pos + v.1)
  }

  class BlobIter {
    const heap: seq<byte>
    var pos: u32

    constructor (heap: seq<byte>)
      ensures this.heap == heap && pos == 0
    {
      this.heap := heap;
      pos := 0;
    }

    ghost function Future(): seq<(nat, seq<byte>)>
      reads this
    {
      Blobs(heap, pos)
    }

    method Next() returns (r: Option<(nat, seq<byte>)>)
      modifies this
      ensures if old(Future()) == [] then r == None && Future() == []
              else r == Some(old(Future())[0]) && Future() == old(Future())[1..]
    {
      hide GetWithSize;
      if pos >= |heap| {
        return None;
      }
      var index := pos;
      var got := GetWithSize(heap, index);
      if got.Err? || pos + got.value.1 > 0xFFFF_FFFF {
        return None;
      }
      pos := pos + got.value.1;
      return Some((index, got.value.0));
    }
  }

  // Round trip.

  predicate BlobFits(b: seq<byte>) {
    |b| <= MAX_COMPRESSED_U32
  }

  function PutBlob(b: seq<byte>): seq<byte>
    requires BlobFits(b)
  {
    EncodeU32(|b|) + b
  }

  function PutHeap(bs: seq<seq<byte>>): seq<byte>
    requires forall b | b in bs :: BlobFits(b)
  {
    if bs == [] then [] else PutBlob(bs[0]) + PutHeap(bs[1..])
  }

  /** Each blob at the offset where it was written. */
  function Placed(bs: seq<seq<byte>>, at: nat): seq<(nat, seq<byte>)>
    requires forall b | b in bs :: BlobFits(b)
  {
    if bs == [] then [] else [(at, bs[0])] + Placed(bs[1..], at + |PutBlob(bs[0])|)
  }

  lemma GetPut(before: seq<byte>, b: seq<byte>, after: seq<byte>)
    requires BlobFits(b)
    ensures GetWithSize(before + PutBlob(b) + after, |before|) == Ok((b, |PutBlob(b)|))
  {
    hide EncodeU32, ReadU32;
    var heap := before + PutBlob(b) + after;
    var rest := heap[|before|..];
    assert rest == EncodeU32(|b|) + (b + after);
    ReadEncodeU32(|b|, b + after);
    var used := |EncodeU32(|b|)|;
    assert rest[used..used + |b|] == b;
  }

  /** A blob is read exactly when its length, in any of its encodings, and then all its bytes are there. */
  lemma {:induction false} BlobExact(heap: seq<byte>, index: nat, b: seq<byte>, size: nat)
    ensures GetWithSize(heap, index) == Ok((b, size)) <==>
              index + size <= |heap| && SpellsU(heap[index..index + size], |b|, b)
  {
    hide GetWithSize, SpellsU;
    if GetWithSize(heap, index) == Ok((b, size)) {
      BlobSpelled(heap, index);
    }
    if index + size <= |heap| && SpellsU(heap[index..index + size], |b|, b) {
      BlobReads(heap, index, b, size);
    }
  }

  lemma BlobSpelled(heap: seq<byte>, index: nat)
    requires GetWithSize(heap, index).Ok?
    ensures var (b, size) := GetWithSize(heap, index).value;
            index + size <= |heap| && SpellsU(heap[index..index + size], |b|, b)
  {
    hide ReadU32, SpellsU;
    var rest := heap[index..];
    var (len, used) := ReadU32(rest).value;
    var (b, size) := GetWithSize(heap, index).value;
    var front := heap[index..index + size];
    ReadU32Exact(rest, len, used);
    Pieces(rest, front, used, size);
    SpelledFront(front, len, b, rest[size..]);
  }

  lemma Pieces(s: seq<byte>, front: seq<byte>, used: nat, size: nat)
    requires used <= size <= |s| && front == s[..size]
    ensures s == front + s[size..] && s[used..] == s[used..size] + s[size..]
  {}

  lemma BlobReads(heap: seq<byte>, index: nat, b: seq<byte>, size: nat)
    requires index + size <= |heap| && SpellsU(heap[index..index + size], |b|, b)
    ensures GetWithSize(heap, index) == Ok((b, size))
  {
    hide ReadU32, SpellsU;
    var front, rest := heap[index..index + size], heap[index..];
    SpelledTail(front, |b|, 0, b);
    ReadU32Exact(front, |b|, size - |b|);
    ReadU32Stable(front, rest[size..]);
    assert rest == front + rest[size..];
    assert rest[size - |b|..size] == b;
  }

  lemma SpelledFront(s: seq<byte>, v: nat, rest: seq<byte>, more: seq<byte>)
    requires SpellsU(s + more, v, rest + more)
    ensures SpellsU(s, v, rest)
  {
    hide PutWidth;
    forall w: seq<byte> | s + more == w + (rest + more) ensures s == w + rest {
      assert s + more == (w + rest) + more;
      assert |s| == |w + rest|;
      assert s == (s + more)[..|s|] == ((w + rest) + more)[..|s|] == w + rest;
    }
  }

  /** A length that more bytes are declared with than there are is out of range, and so is an index past the end. */
  lemma BlobRefused(heap: seq<byte>, index: nat, len: nat, rest: seq<byte>)
    requires index > |heap| || (SpellsU(heap[index..], len, rest) && len > |rest|)
    ensures GetWithSize(heap, index) == Err(OutOfRange)
  {
    if index <= |heap| {
      hide ReadU32, SpellsU;
      SpelledTail(heap[index..], len, 0, rest);
      ReadU32Exact(heap[index..], len, |heap[index..]| - |rest|);
    }
  }

  /** Where the length itself is refused its error is passed on: at the end of the heap, truncated. */
  lemma BlobUnreadable(heap: seq<byte>, index: nat)
    requires index <= |heap| && ReadU32(heap[index..]).Err?
    ensures GetWithSize(heap, index) == Err(ReadU32(heap[index..]).error)
    ensures index == |heap| ==> GetWithSize(heap, index) == Err(Truncated)
  {}

  /** Walking a written heap gives exactly the blobs that were written, at their offsets. */
  lemma {:induction false} HeapRoundTrip(before: seq<byte>, bs: seq<seq<byte>>)
    requires forall b | b in bs :: BlobFits(b)
    requires |before| + |PutHeap(bs)| <= 0xFFFF_FFFF
    ensures Blobs(before + PutHeap(bs), |before|) == Placed(bs, |before|)
    decreases bs
  {
    hide GetWithSize, PutBlob;
    if bs == [] {
    } else {
      var tail := PutHeap(bs[1..]);
      var heap := before + PutHeap(bs);
      assert heap == before + PutBlob(bs[0]) + tail == (before + PutBlob(bs[0])) + tail;
      GetPut(before, bs[0], tail);
      assert forall b | b in bs[1..] :: b in bs;
      HeapRoundTrip(before + PutBlob(bs[0]), bs[1..]);
    }
  }

  /** On any heap, every index the walk yields reads back the same blob, and the indices increase. */
  lemma {:induction false} BlobsReadBack(heap: seq<byte>, pos: nat)
    ensures forall k | 0 <= k < |Blobs(heap, pos)| ::
              pos <= Blobs(heap, pos)[k].0 < |heap| && Get(heap, Blobs(heap, pos)[k].0) == Ok(Blobs(heap, pos)[k].1)
    ensures forall j, k | 0 <= j < k < |Blobs(heap, pos)| :: Blobs(heap, pos)[j].0 < Blobs(heap, pos)[k].0
    decreases |heap| - pos
  {
    hide GetWithSize;
    if pos < |heap| && GetWithSize(heap, pos).Ok? {
      BlobsReadBack(heap, pos + GetWithSize(heap, pos).value.1);
    }
  }

  // `#Strings`.

  /** The offset of the first NUL, or the length when there is none. */
  function NulAt(s: seq<byte>): (n: nat)
    ensures n <= |s| && 0 !in s[..n] && (n < |s| ==> s[n] == 0)
  {
    if s == [] || s[0] == 0 then 0 else NulTail(s, NulAt(s[1..])); 1 + NulAt(s[1..])
  }

  lemma NulTail(s: seq<byte>, n: nat)
    requires s != [] && s[0] != 0 && n <= |s[1..]| && 0 !in s[1..][..n]
    ensures 0 !in s[..1 + n]
  {
    assert s[..1 + n] == [s[0]] + s[1..][..n];
  }

  /** The entries from `pos` on with their indices; an unterminated last entry runs to the end. */
  function Strings(heap: seq<byte>, pos: nat): seq<(nat, seq<byte>)>
    decreases |heap| - pos
  {
    if pos >= |heap| then []
    else
      var n := NulAt(heap[pos..]);
      [(pos, heap[pos..pos + n])] + Strings(heap, pos + n + 1)
  }

  class StringsIter {
    const heap: seq<byte>
    var pos: nat

    constructor (heap: seq<byte>)
      ensures this.heap == heap && pos == 0
    {
      this.heap := heap;
      pos := 0;
    }

    ghost function Future(): seq<(nat, seq<byte>)>
      reads this
    {
      Strings(heap, pos)
    }

    method Next() returns (r: Option<(nat, seq<byte>)>)
      modifies this
      ensures if old(Future()) == [] then r == None && Future() == []
              else r == Some(old(Future())[0]) && Future() == old(Future())[1..]
    {
      if pos >= |heap| {
        return None;
      }
      var start := pos;
      var len := 0;
      ghost var rest := heap[start..];
      while start + len < |heap| && heap[start + len] != 0
        invariant start + len <= |heap|
        invariant NulAt(rest) == len + NulAt(rest[len..])
      {
        assert rest[len..][1..] == rest[len + 1..];
        len := len + 1;
      }
      assert NulAt(rest) == len;
      pos := start + len + 1;
      return Some((start, heap[start..start + len]));
    }
  }

  function PutString(s: seq<byte>): seq<byte> {
    s + [0]
  }

  function PutStrings(ss: seq<seq<byte>>): seq<byte> {
    if ss == [] then [] else PutString(ss[0]) + PutStrings(ss[1..])
  }

  function PlacedStrings(ss: seq<seq<byte>>, at: nat): seq<(nat, seq<byte>)> {
    if ss == [] then [] else [(at, ss[0])] + PlacedStrings(ss[1..], at + |ss[0]| + 1)
  }

  lemma {:induction false} NulAfter(s: seq<byte>, tail: seq<byte>)
    requires 0 !in s
    ensures NulAt(s + ([0] + tail)) == |s|
  {
    if s == [] {
      assert s + ([0] + tail) == [0] + tail;
    } else {
      assert (s + ([0] + tail))[1..] == s[1..] + ([0] + tail);
      NulAfter(s[1..], tail);
    }
  }

  lemma EntryPlaced(before: seq<byte>, s: seq<byte>, tail: seq<byte>)
    requires 0 !in s
    ensures var heap := before + PutString(s) + tail;
            NulAt(heap[|before|..]) == |s| && heap[|before|..|before| + |s|] == s && |PutString(s)| == |s| + 1
  {
    hide NulAt;
    assert (before + PutString(s) + tail)[|before|..] == s + ([0] + tail);
    NulAfter(s, tail);
  }

  lemma FirstString(before: seq<byte>, s: seq<byte>, tail: seq<byte>)
    requires 0 !in s
    ensures var heap := before + PutString(s) + tail;
            Strings(heap, |before|) == [(|before|, s)] + Strings(heap, |before + PutString(s)|)
    ensures |PutString(s)| == |s| + 1
  {
    EntryPlaced(before, s, tail);
    hide NulAt;
  }

  /** Walking a written `#Strings` heap gives exactly the strings that were written. */
  lemma {:induction false} StringsRoundTrip(before: seq<byte>, ss: seq<seq<byte>>)
    requires forall s | s in ss :: 0 !in s
    ensures Strings(before + PutStrings(ss), |before|) == PlacedStrings(ss, |before|)
    decreases ss
  {
    hide Strings, NulAt, PutString;
    if ss == [] {
      NoStrings(before);
    } else {
      var next, tail := before + PutString(ss[0]), PutStrings(ss[1..]);
      Reassociate(before, PutString(ss[0]), tail);
      FirstString(before, ss[0], tail);
      StringsRoundTrip(next, ss[1..]);
    }
  }

  lemma NoStrings(before: seq<byte>)
    ensures Strings(before + [], |before|) == []
  {}

  // `#US`: blobs that hold UTF-16 code units and a final flag byte.

  datatype UserString = UserString(units: seq<byte>, flag: Option<byte>, oddLength: bool)

  /** `split_user_string`: the last byte is the flag; an odd byte before it is dropped. */
  function Split(body: seq<byte>): UserString {
    if body == [] then UserString([], None, false)
    else
      var rest := body[..|body| - 1];
      var odd := |rest| % 2 != 0;
      UserString(if odd then rest[..|rest| - 1] else rest, Some(body[|body| - 1]), odd)
  }

  /** Splitting loses one byte exactly when the entry has an even, non-zero length, which it reports. */
  lemma SplitExact(body: seq<byte>)
    ensures var u := Split(body);
            && |u.units| % 2 == 0 && (u.flag == None <==> body == [])
            && (u.oddLength <==> body != [] && |body| % 2 == 0)
            && (!u.oddLength ==> body == u.units + (if u.flag.Some? then [u.flag.value] else []))
            && (u.oddLength ==> body == u.units + [body[|body| - 2], u.flag.value])
  {
    if body != [] {
      var rest := body[..|body| - 1];
      assert body == rest + [body[|body| - 1]];
      if |rest| % 2 != 0 {
        assert rest == rest[..|rest| - 1] + [rest[|rest| - 1]];
      }
    }
  }

  /**
   * The token of a `#US` offset: table byte 0x70 in the high byte, laid over the offset bit by bit.
   * The top four bits become 7, or 15 where the offset has its highest bit set.
   */
  function UserStringToken(offset: u32): u32 {
    offset % 0x1000_0000 + (if offset < 0x8000_0000 then 0x7000_0000 else 0xF000_0000)
  }

  /** The offset a token carries: its low 24 bits. */
  function OffsetOf(token: u32): u32 {
    token % 0x100_0000
  }

  /** A token leads back to its entry, under the table byte of `#US`, exactly below 2^24. */
  lemma TokenLeadsBack(offset: u32)
    ensures OffsetOf(UserStringToken(offset)) == offset && UserStringToken(offset) / 0x100_0000 == 0x70
       <==> offset < 0x100_0000
  {}

  /** Bit by bit: the low 28 bits are the offset's, the next three are set, the highest is the offset's. */
  lemma TokenBits(offset: u32)
    ensures UserStringToken(offset) % 0x1000_0000 == offset % 0x1000_0000
    ensures UserStringToken(offset) / 0x1000_0000 % 8 == 7
    ensures UserStringToken(offset) / 0x8000_0000 == offset / 0x8000_0000
  {}

  /** Entries under their tokens, split into code units and flag. */
  function SplitAll(entries: seq<(nat, seq<byte>)>): (r: seq<(u32, UserString)>)
    requires forall e | e in entries :: e.0 <= 0xFFFF_FFFF
    ensures |r| == |entries|
    ensures forall k | 0 <= k < |r| :: r[k] == (UserStringToken(entries[k].0), Split(entries[k].1))
  {
    seq(|entries|, k requires 0 <= k < |entries| => (UserStringToken(entries[k].0), Split(entries[k].1)))
  }

  lemma {:induction false} BlobOffsetsFit(heap: seq<byte>, pos: nat)
    requires pos <= 0xFFFF_FFFF
    ensures forall e | e in Blobs(heap, pos) :: e.0 <= 0xFFFF_FFFF
    decreases |heap| - pos
  {
    hide GetWithSize;
    if pos < |heap| && GetWithSize(heap, pos).Ok? && pos + GetWithSize(heap, pos).value.1 <= 0xFFFF_FFFF {
      BlobOffsetsFit(heap, pos + GetWithSize(heap, pos).value.1);
    }
  }

  /** The user strings from `pos` on. */
  function UserStrings(heap: seq<byte>, pos: u32): seq<(u32, UserString)> {
    BlobOffsetsFit(heap, pos);
    SplitAll(Blobs(heap, pos))
  }

  lemma UserStringsStep(heap: seq<byte>, pos: u32)
    ensures UserStrings(heap, pos) ==
            if pos >= |heap| || GetWithSize(heap, pos).Err? || pos + GetWithSize(heap, pos).value.1 > 0xFFFF_FFFF then []
            else
              var (body, size) := GetWithSize(heap, pos).value;
              [(UserStringToken(pos), Split(body))] + UserStrings(heap, pos + size)
  {
    hide GetWithSize, Split, UserStringToken;
    BlobOffsetsFit(heap, pos);
    if pos < |heap| && GetWithSize(heap, pos).Ok? && pos + GetWithSize(heap, pos).value.1 <= 0xFFFF_FFFF {
      var (body, size) := GetWithSize(heap, pos).value;
      BlobOffsetsFit(heap, pos + size);
      assert Blobs(heap, pos) == [(pos, body)] + Blobs(heap, pos + size);
      hide Blobs;
    }
  }

  class UserStringsIter {
    const heap: seq<byte>
    var pos: u32

    constructor (heap: seq<byte>)
      ensures this.heap == heap && pos == 0
    {
      this.heap := heap;
      pos := 0;
    }

    ghost function Future(): seq<(u32, UserString)>
      reads this
    {
      UserStrings(heap, pos)
    }

    method Next() returns (r: Option<(u32, UserString)>)
      modifies this
      ensures if old(Future()) == [] then r == None && Future() == []
              else r == Some(old(Future())[0]) && Future() == old(Future())[1..]
    {
      UserStringsStep(heap, pos);
      hide GetWithSize, Split, UserStringToken, UserStrings;
      if pos >= |heap| {
        return None;
      }
      var offset := pos;
      var got := GetWithSize(heap, offset);
      if got.Err? || pos + got.value.1 > 0xFFFF_FFFF {
        return None;
      }
      pos := pos + got.value.1;
      return Some((UserStringToken(offset), Split(got.value.0)));
    }
  }

  /** A user string as a compiler writes it: whole code units, then the flag. */
  function Body(u: UserString): seq<byte> {
    u.units + (if u.flag.Some? then [u.flag.value] else [])
  }

  ghost predicate Conforming(u: UserString) {
    |u.units| % 2 == 0 && !u.oddLength && (u.flag.None? ==> u.units == []) && BlobFits(Body(u))
  }

  function Bodies(us: seq<UserString>): (bs: seq<seq<byte>>)
    ensures |bs| == |us| && forall k | 0 <= k < |us| :: bs[k] == Body(us[k])
  {
    seq(|us|, k requires 0 <= k < |us| => Body(us[k]))
  }

  lemma SplitBody(u: UserString)
    requires Conforming(u)
    ensures Split(Body(u)) == u
  {
    if u.flag.Some? {
      assert Body(u)[..|Body(u)| - 1] == u.units;
    }
  }

  lemma BodiesFit(us: seq<UserString>)
    requires forall u | u in us :: Conforming(u)
    ensures forall b | b in Bodies(us) :: BlobFits(b)
  {
    hide Body, BlobFits;
    forall b | b in Bodies(us) ensures BlobFits(b) {
      var k :| 0 <= k < |us| && Bodies(us)[k] == b;
      assert us[k] in us;
    }
  }

  function PutUserStrings(us: seq<UserString>): seq<byte>
    requires forall u | u in us :: Conforming(u)
  {
    BodiesFit(us);
    PutHeap(Bodies(us))
  }

  /** Each body at the offset where it was written. */
  function PlacedBodies(us: seq<UserString>): seq<(nat, seq<byte>)>
    requires forall u | u in us :: Conforming(u)
  {
    BodiesFit(us);
    Placed(Bodies(us), 0)
  }

  /** Walking a written `#US` heap gives exactly the strings that were written, under the tokens of their offsets. */
  lemma UserStringsRoundTrip(us: seq<UserString>)
    requires (forall u | u in us :: Conforming(u)) && |PutUserStrings(us)| <= 0xFFFF_FFFF
    ensures var found, placed := UserStrings(PutUserStrings(us), 0), PlacedBodies(us);
            && |found| == |us| == |placed|
            && forall k | 0 <= k < |us| :: placed[k].0 <= 0xFFFF_FFFF && found[k] == (UserStringToken(placed[k].0), us[k])
  {
    BodiesFit(us);
    BlobOffsetsFit(PutUserStrings(us), 0);
    hide Blobs, PutHeap, Split, BlobFits, Body, UserStringToken;
    assert [] + PutHeap(Bodies(us)) == PutHeap(Bodies(us));
    HeapRoundTrip([], Bodies(us));
    PlacedAt(Bodies(us), 0);
    forall k | 0 <= k < |us| ensures Split(Bodies(us)[k]) == us[k] {
      SplitBody(us[k]);
    }
    var placed := PlacedBodies(us);
    forall k | 0 <= k < |us| ensures placed[k].0 <= 0xFFFF_FFFF {
      assert placed[k] in Blobs(PutUserStrings(us), 0);
    }
  }

  lemma {:induction false} PlacedAt(bs: seq<seq<byte>>, at: nat)
    requires forall b | b in bs :: BlobFits(b)
    ensures |Placed(bs, at)| == |bs| && forall k | 0 <= k < |bs| :: Placed(bs, at)[k].1 == bs[k]
    decreases bs
  {
    hide BlobFits, PutBlob;
    if bs == [] {
    } else {
      PlacedAt(bs[1..], at + |PutBlob(bs[0])|);
    }
  }
}
