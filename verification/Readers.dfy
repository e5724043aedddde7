/** The bounds-checked little-endian cursor of src/reader.rs. */
module Readers {
  import opened Wrappers
  import opened Bytes

  /** The fewest bytes after `rel` to the next position divisible by `align`. */
  function Padding(rel: nat, align: nat): (p: nat)
    requires align > 0
    ensures p < align && (rel + p) % align == 0
  {
    var r := rel % align;
    if r == 0 then 0 else PaddingAligns(rel, align); align - r
  }

  lemma PaddingAligns(rel: nat, align: nat)
    requires align > 0 && rel % align != 0
    ensures (rel + (align - rel % align)) % align == 0
  {
    var q := rel / align;
    assert rel + (align - rel % align) == align * q + align == align * (q + 1);
    ModUnique(rel + (align - rel % align), align, q + 1, 0);
  }

  lemma ModUnique(x: int, m: int, q: int, r: int)
    requires m > 0 && x == m * q + r && 0 <= r < m
    ensures x % m == r && x / m == q
  {
    var q', r' := x / m, x % m;
    assert x == m * q' + r';
    assert m * (q + 1) == m * q + m && m * (q' + 1) == m * q' + m;
    if q < q' {
      MulMono(m, q + 1, q');
    } else if q' < q {
      MulMono(m, q' + 1, q);
    }
  }

  lemma MulMono(m: int, a: int, b: int)
    requires m > 0 && a <= b
    ensures m * a <= m * b
  {}

  /** A read that fails leaves the cursor where it was. */
  class Reader {
    const data: seq<byte>
    var pos: nat

    constructor (data: seq<byte>)
      ensures this.data == data && pos == 0 && Valid()
    {
      this.data := data;
      pos := 0;
    }

    ghost predicate Valid()
      reads this
    {
      pos <= |data|
    }

    /** The unread bytes. */
    function Rest(): seq<byte>
      reads this
      requires Valid()
    {
      data[pos..]
    }

    function Remaining(): nat
      reads this
      requires Valid()
    {
      |data| - pos
    }

    method Seek(to: nat) returns (r: Result<()>)
      requires Valid()
      modifies this
      ensures Valid()
      ensures if to <= |data| then r == Ok(()) && pos == to else r == Err(OutOfRange) && pos == old(pos)
    {
      if to > |data| {
        return Err(OutOfRange);
      }
      pos := to;
      return Ok(());
    }

    method Skip(n: nat) returns (r: Result<()>)
      requires Valid()
      modifies this
      ensures Valid()
      ensures if n <= old(Remaining()) then r == Ok(()) && pos == old(pos) + n else r == Err(OutOfRange) && pos == old(pos)
    {
      r := Seek(pos + n);
    }

    /** Skips the padding counted from `origin`; an origin past the cursor counts as the cursor itself. */
    method AlignTo(origin: nat, align: nat) returns (r: Result<()>)
      requires Valid() && align > 0
      modifies this
      ensures Valid()
      ensures var rel := if origin <= old(pos) then old(pos) - origin else 0;
              var pad := Padding(rel, align);
              if pad <= old(Remaining()) then r == Ok(()) && pos == old(pos) + pad && (rel + pad) % align == 0
              else r == Err(OutOfRange) && pos == old(pos)
    {
      r := Skip(Padding(if origin <= pos then pos - origin else 0, align));
    }

    method Take(n: nat) returns (r: Result<seq<byte>>)
      requires Valid()
      modifies this
      ensures Valid()
      ensures if n <= |old(Rest())| then r == Ok(old(Rest())[..n]) && pos == old(pos) + n && Rest() == old(Rest())[n..]
              else r == Err(Truncated) && pos == old(pos)
    {
      if n > |data| - pos {
        return Err(Truncated);
      }
      pos := pos + n;
      assert data[pos..] == data[pos - n..][n..];
      assert data[pos - n..pos] == data[pos - n..][..n];
      return Ok(data[pos - n..pos]);
    }

    method U8() returns (r: Result<byte>)
      requires Valid()
      modifies this
      ensures Valid()
      ensures if 1 <= |old(Rest())| then r == Ok(old(Rest())[0]) && pos == old(pos) + 1 && Rest() == old(Rest())[1..]
              else r == Err(Truncated) && pos == old(pos)
    {
      var b :- Take(1);
      return Ok(b[0]);
    }

    method U16() returns (r: Result<u16>)
      requires Valid()
      modifies this
      ensures Valid()
      ensures if 2 <= |old(Rest())| then r == Ok(Le16(old(Rest())[..2])) && pos == old(pos) + 2 && Rest() == old(Rest())[2..]
              else r == Err(Truncated) && pos == old(pos)
    {
      var b :- Take(2);
      return Ok(Le16(b));
    }

    method U32() returns (r: Result<u32>)
      requires Valid()
      modifies this
      ensures Valid()
      ensures if 4 <= |old(Rest())| then r == Ok(Le32(old(Rest())[..4])) && pos == old(pos) + 4 && Rest() == old(Rest())[4..]
              else r == Err(Truncated) && pos == old(pos)
    {
      var b :- Take(4);
      return Ok(Le32(b));
    }

    method U64() returns (r: Result<u64>)
      requires Valid()
      modifies this
      ensures Valid()
      ensures if 8 <= |old(Rest())| then r == Ok(Le64(old(Rest())[..8])) && pos == old(pos) + 8 && Rest() == old(Rest())[8..]
              else r == Err(Truncated) && pos == old(pos)
    {
      var b :- Take(8);
      return Ok(Le64(b));
    }
  }
}
