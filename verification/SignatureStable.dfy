/**
 * Prefix stability: a parse that succeeds looks at no byte past the ones it consumes. Bytes
 * appended to the input are left over unchanged, so no strict prefix of a signature is one.
 */
module SignatureStable {
  import opened Wrappers
  import opened Bytes
  import opened Tokens
  import opened Compressed
  import opened SignatureAst
  import opened SignatureGrammar
  import opened SignatureSound

  /** Parsing `s + e` gave what parsing `s` gave, with `e` left over as well. */
  ghost predicate Same<T(!new)>(r: Parsed<T>, longer: Parsed<T>, e: seq<byte>) {
    r.Ok? ==> longer == Ok((r.value.0, r.value.1 + e))
  }

  lemma StU(s: seq<byte>, e: seq<byte>)
    ensures Same(PU(s), PU(s + e), e)
  {
    if ReadU32(s).Ok? {
      ReadU32Stable(s, e);
      var used := ReadU32(s).value.1;
      assert (s + e)[used..] == s[used..] + e;
    }
  }

  lemma StI(s: seq<byte>, e: seq<byte>)
    ensures Same(PI(s), PI(s + e), e)
  {
    if ReadU32(s).Ok? {
      ReadU32Stable(s, e);
      var used := ReadU32(s).value.1;
      assert (s + e)[used..] == s[used..] + e;
    }
  }

  lemma StByte(s: seq<byte>, e: seq<byte>)
    ensures Same(PByte(s), PByte(s + e), e)
  {
    if s != [] {
      assert (s + e)[1..] == s[1..] + e;
    }
  }

  lemma StCount(s: seq<byte>, e: seq<byte>)
    ensures Same(PCount(s), PCount(s + e), e)
  {
    hide PU;
    StU(s, e);
  }

  lemma StToken(s: seq<byte>, e: seq<byte>)
    ensures Same(PToken(s), PToken(s + e), e)
  {
    hide PU, NewToken;
    StU(s, e);
  }

  /** A run of modifiers is stable once something follows it. */
  lemma {:induction false} StMods(s: seq<byte>, e: seq<byte>, room: nat)
    requires PMods(s, room).Ok? && PMods(s, room).value.1 != []
    ensures Same(PMods(s, room), PMods(s + e, room), e)
    decreases room
  {
    hide PToken;
    SoundMods(s, room);
    if StartsMod(s) {
      assert (s + e)[1..] == s[1..] + e;
      StToken(s[1..], e);
      StMods(PToken(s[1..]).value.1, e, room - 1);
    }
  }

  lemma {:induction false} StUs(s: seq<byte>, e: seq<byte>, n: nat)
    ensures Same(PUs(s, n), PUs(s + e, n), e)
    decreases n
  {
    hide PU;
    if n > 0 && PUs(s, n).Ok? {
      StU(s, e);
      StUs(PU(s).value.1, e, n - 1);
    }
  }

  lemma {:induction false} StIs(s: seq<byte>, e: seq<byte>, n: nat)
    ensures Same(PIs(s, n), PIs(s + e, n), e)
    decreases n
  {
    hide PI;
    if n > 0 && PIs(s, n).Ok? {
      StI(s, e);
      StIs(PI(s).value.1, e, n - 1);
    }
  }

  lemma StShape(s: seq<byte>, e: seq<byte>)
    ensures Same(PShape(s), PShape(s + e), e)
  {
    hide PU, PCount, PUs, PIs;
    if PShape(s).Ok? {
      StU(s, e);
      var s1 := PU(s).value.1;
      StCount(s1, e);
      var (n, s2) := PCount(s1).value;
      StUs(s2, e, n);
      var s3 := PUs(s2, n).value.1;
      StCount(s3, e);
      var (k, s4) := PCount(s3).value;
      StIs(s4, e, k);
    }
  }

  lemma {:induction false} StType(s: seq<byte>, e: seq<byte>, limit: nat, depth: nat, pinned: bool)
    requires depth <= limit
    ensures Same(PType(s, limit, depth, pinned), PType(s + e, limit, depth, pinned), e)
    decreases limit - depth, 0
  {
    hide PTypeInner;
    if depth < limit {
      StInner(s, e, limit, depth + 1, pinned);
    }
  }

  lemma {:induction false} StInner(s: seq<byte>, e: seq<byte>, limit: nat, depth: nat, pinned: bool)
    requires depth <= limit
    ensures Same(PTypeInner(s, limit, depth, pinned), PTypeInner(s + e, limit, depth, pinned), e)
    decreases limit - depth, 5
  {
    hide PMods, PType, PTypeBody;
    if PTypeInner(s, limit, depth, pinned).Ok? {
      var (leading, s0) := PMods(s, limit).value;
      SoundMods(s, limit);
      if leading != [] {
        ParsedHead(s0, limit, depth, pinned);
        StMods(s, e, limit);
        StType(s0, e, limit, depth, pinned);
      } else {
        StMods(s, e, limit);
        StByte(s0, e);
        StBody(s0[0], s0[1..], e, limit, depth, pinned);
      }
    }
  }

  lemma {:induction false} StBody(b: byte, s: seq<byte>, e: seq<byte>, limit: nat, depth: nat, pinned: bool)
    requires depth <= limit
    ensures Same(PTypeBody(b, s, limit, depth, pinned), PTypeBody(b, s + e, limit, depth, pinned), e)
    decreases limit - depth, 4
  {
    hide PToken, PU, PShape, PModsType, PTypes, PSig, PCount, PType;
    if b == PTR || b == SZARRAY {
      StModsType(s, e, limit, depth, pinned);
    } else if b == BYREF {
      StType(s, e, limit, depth, pinned);
    } else if b == PINNED {
      StType(s, e, limit, depth, true);
    } else if b == VALUETYPE || b == CLASS {
      StToken(s, e);
    } else if b == VAR || b == MVAR {
      StU(s, e);
    } else if b == ARRAY {
      StType(s, e, limit, depth, pinned);
      if PType(s, limit, depth, pinned).Ok? {
        StShape(PType(s, limit, depth, pinned).value.1, e);
      }
    } else if b == GENERICINST {
      StGenericInst(s, e, limit, depth, pinned);
    } else if b == FNPTR {
      StSig(s, e, limit, depth, pinned);
    }
  }

  lemma {:induction false} StGenericInst(s: seq<byte>, e: seq<byte>, limit: nat, depth: nat, pinned: bool)
    requires depth <= limit
    ensures Same(PTypeBody(GENERICINST, s, limit, depth, pinned), PTypeBody(GENERICINST, s + e, limit, depth, pinned), e)
    decreases limit - depth, 3
  {
    hide PToken, PTypes, PCount, PType;
    if PTypeBody(GENERICINST, s, limit, depth, pinned).Ok? {
      StByte(s, e);
      var s1 := s[1..];
      StToken(s1, e);
      var s2 := PToken(s1).value.1;
      StCount(s2, e);
      var (count, s3) := PCount(s2).value;
      StTypes(s3, e, count, limit, depth, pinned);
    }
  }

  lemma {:induction false} StModsType(s: seq<byte>, e: seq<byte>, limit: nat, depth: nat, pinned: bool)
    requires depth <= limit
    ensures Same(PModsType(s, limit, depth, pinned), PModsType(s + e, limit, depth, pinned), e)
    decreases limit - depth, 1
  {
    hide PMods, PType;
    if PModsType(s, limit, depth, pinned).Ok? {
      var s1 := PMods(s, limit).value.1;
      ParsedHead(s1, limit, depth, pinned);
      StMods(s, e, limit);
      StType(s1, e, limit, depth, pinned);
    }
  }

  lemma {:induction false} StTypes(s: seq<byte>, e: seq<byte>, n: nat, limit: nat, depth: nat, pinned: bool)
    requires depth <= limit
    ensures Same(PTypes(s, n, limit, depth, pinned), PTypes(s + e, n, limit, depth, pinned), e)
    decreases limit - depth, 2, n
  {
    hide PType;
    if n > 0 && PTypes(s, n, limit, depth, pinned).Ok? {
      StType(s, e, limit, depth, pinned);
      StTypes(PType(s, limit, depth, pinned).value.1, e, n - 1, limit, depth, pinned);
    }
  }

  lemma {:induction false} StParam(s: seq<byte>, e: seq<byte>, limit: nat, depth: nat, pinned: bool)
    requires depth <= limit
    ensures Same(PParam(s, limit, depth, pinned), PParam(s + e, limit, depth, pinned), e)
    decreases limit - depth, 1
  {
    hide PMods, PType;
    if PParam(s, limit, depth, pinned).Ok? {
      var s1 := PMods(s, limit).value.1;
      StMods(s, e, limit);
      assert (s1 + e)[0] == s1[0] && (s1 + e)[1..] == s1[1..] + e;
      StType(if s1[0] == BYREF then s1[1..] else s1, e, limit, depth, pinned);
    }
  }

  lemma {:induction false} StParams(s: seq<byte>, e: seq<byte>, n: nat, limit: nat, depth: nat, pinned: bool)
    requires depth <= limit
    ensures Same(PParams(s, n, limit, depth, pinned), PParams(s + e, n, limit, depth, pinned), e)
    decreases limit - depth, 2, n
  {
    hide PParam;
    if n > 0 && PParams(s, n, limit, depth, pinned).Ok? {
      StParam(s, e, limit, depth, pinned);
      StParams(PParam(s, limit, depth, pinned).value.1, e, n - 1, limit, depth, pinned);
    }
  }

  lemma {:induction false} StSplit(s: seq<byte>, e: seq<byte>, n: nat, past: bool, limit: nat, depth: nat, pinned: bool)
    requires depth <= limit
    ensures Same(PSplit(s, n, past, limit, depth, pinned), PSplit(s + e, n, past, limit, depth, pinned), e)
    decreases limit - depth, 2, n
  {
    hide PParam;
    if n > 0 && PSplit(s, n, past, limit, depth, pinned).Ok? {
      assert (s + e)[0] == s[0] && (s + e)[1..] == s[1..] + e;
      var s1 := if s[0] == SENTINEL then s[1..] else s;
      StParam(s1, e, limit, depth, pinned);
      StSplit(PParam(s1, limit, depth, pinned).value.1, e, n - 1, past || s[0] == SENTINEL, limit, depth, pinned);
    }
  }

  lemma StSigHead(s: seq<byte>, e: seq<byte>)
    ensures Same(PSigHead(s), PSigHead(s + e), e)
  {
    hide PU, Bit, ConvOf;
    if PSigHead(s).Ok? {
      StByte(s, e);
      StU(s[1..], e);
    }
  }

  lemma {:induction false} StSigBody(s: seq<byte>, e: seq<byte>, limit: nat, depth: nat, pinned: bool)
    requires depth <= limit
    ensures Same(PSigBody(s, limit, depth, pinned), PSigBody(s + e, limit, depth, pinned), e)
    decreases limit - depth, 3
  {
    hide PCount, PParam, PSplit;
    if PSigBody(s, limit, depth, pinned).Ok? {
      StCount(s, e);
      var (count, s1) := PCount(s).value;
      StParam(s1, e, limit, depth, pinned);
      var s2 := PParam(s1, limit, depth, pinned).value.1;
      StSplit(s2, e, count, false, limit, depth, pinned);
    }
  }

  lemma {:induction false} StSig(s: seq<byte>, e: seq<byte>, limit: nat, depth: nat, pinned: bool)
    requires depth <= limit
    ensures Same(PSig(s, limit, depth, pinned), PSig(s + e, limit, depth, pinned), e)
    decreases limit - depth, 0
  {
    hide PSigHead, PSigBody;
    if depth < limit && PSig(s, limit, depth, pinned).Ok? {
      assert PSigInner(s, limit, depth + 1, pinned).Ok?;
      StSigHead(s, e);
      StSigBody(PSigHead(s).value.1, e, limit, depth + 1, pinned);
    }
  }

  lemma StConvention(s: seq<byte>, e: seq<byte>, expected: byte)
    ensures Same(PConvention(s, expected), PConvention(s + e, expected), e)
  {
    StByte(s, e);
  }

  lemma StLocal(s: seq<byte>, e: seq<byte>, limit: nat)
    ensures Same(PLocal(s, limit), PLocal(s + e, limit), e)
  {
    hide PMods, PType;
    if PLocal(s, limit).Ok? {
      assert (s + e)[0] == s[0] && (s + e)[1..] == s[1..] + e;
      if s[0] != TYPEDBYREF {
        StMods(s, e, limit);
        var s1 := PMods(s, limit).value.1;
        assert (s1 + e)[0] == s1[0] && (s1 + e)[1..] == s1[1..] + e;
        if s1[0] == PINNED {
          StMods(s1[1..], e, limit);
        }
        var s2 := if s1[0] == PINNED then PMods(s1[1..], limit).value.1 else s1;
        assert (s2 + e)[0] == s2[0] && (s2 + e)[1..] == s2[1..] + e;
        StType(if s2[0] == BYREF then s2[1..] else s2, e, limit, 0, false);
      }
    }
  }

  lemma {:induction false} StLocals(s: seq<byte>, e: seq<byte>, n: nat, limit: nat)
    ensures Same(PLocals(s, n, limit), PLocals(s + e, n, limit), e)
    decreases n
  {
    hide PLocal;
    if n > 0 && PLocals(s, n, limit).Ok? {
      StLocal(s, e, limit);
      StLocals(PLocal(s, limit).value.1, e, n - 1, limit);
    }
  }

  /** Every entry point is stable under appended bytes. */
  lemma EntryPointsStable(s: seq<byte>, e: seq<byte>, limit: nat)
    ensures Same(PMethodSig(s, limit), PMethodSig(s + e, limit), e)
    ensures Same(PFieldSig(s, limit), PFieldSig(s + e, limit), e)
    ensures Same(PLocalSig(s, limit), PLocalSig(s + e, limit), e)
    ensures Same(PPropertySig(s, limit), PPropertySig(s + e, limit), e)
    ensures Same(PMethodSpec(s, limit), PMethodSpec(s + e, limit), e)
    ensures Same(PTypeSpec(s, limit), PTypeSpec(s + e, limit), e)
  {
    StSig(s, e, limit, 0, false);
    StType(s, e, limit, 0, false);
    StField(s, e, limit);
    StLocalSig(s, e, limit);
    StProperty(s, e, limit);
    StMethodSpec(s, e, limit);
  }

  lemma StField(s: seq<byte>, e: seq<byte>, limit: nat)
    ensures Same(PFieldSig(s, limit), PFieldSig(s + e, limit), e)
  {
    hide PConvention, PModsType;
    StConvention(s, e, 0x06);
    if PConvention(s, 0x06).Ok? {
      StModsType(PConvention(s, 0x06).value.1, e, limit, 0, false);
    }
  }

  lemma StLocalSig(s: seq<byte>, e: seq<byte>, limit: nat)
    ensures Same(PLocalSig(s, limit), PLocalSig(s + e, limit), e)
  {
    hide PConvention, PCount, PLocals;
    if PLocalSig(s, limit).Ok? {
      StConvention(s, e, 0x07);
      var s1 := PConvention(s, 0x07).value.1;
      StCount(s1, e);
      StLocals(PCount(s1).value.1, e, PCount(s1).value.0, limit);
    }
  }

  lemma StProperty(s: seq<byte>, e: seq<byte>, limit: nat)
    ensures Same(PPropertySig(s, limit), PPropertySig(s + e, limit), e)
  {
    hide PConvention, PCount, PParam, PParams;
    if PPropertySig(s, limit).Ok? {
      StConvention(s, e, 0x08);
      var s1 := PConvention(s, 0x08).value.1;
      StCount(s1, e);
      var (count, s2) := PCount(s1).value;
      StParam(s2, e, limit, 0, false);
      StParams(PParam(s2, limit, 0, false).value.1, e, count, limit, 0, false);
    }
  }

  lemma StMethodSpec(s: seq<byte>, e: seq<byte>, limit: nat)
    ensures Same(PMethodSpec(s, limit), PMethodSpec(s + e, limit), e)
  {
    hide PConvention, PCount, PTypes;
    if PMethodSpec(s, limit).Ok? {
      StConvention(s, e, 0x0A);
      var s1 := PConvention(s, 0x0A).value.1;
      StCount(s1, e);
      StTypes(PCount(s1).value.1, e, PCount(s1).value.0, limit, 0, false);
    }
  }

  /** `k` bytes of `s` are fewer than the parse of `s` consumed. */
  predicate Short<T>(s: seq<byte>, k: nat, r: Parsed<T>) {
    r.Ok? && k + |r.value.1| < |s|
  }

  /** No strict prefix of the bytes a signature consumed is itself a signature of that kind. */
  lemma NoStrictPrefix(s: seq<byte>, k: nat, limit: nat)
    requires k <= |s|
    ensures Short(s, k, PMethodSig(s, limit)) ==> PMethodSig(s[..k], limit).Err?
    ensures Short(s, k, PFieldSig(s, limit)) ==> PFieldSig(s[..k], limit).Err?
    ensures Short(s, k, PLocalSig(s, limit)) ==> PLocalSig(s[..k], limit).Err?
    ensures Short(s, k, PPropertySig(s, limit)) ==> PPropertySig(s[..k], limit).Err?
    ensures Short(s, k, PMethodSpec(s, limit)) ==> PMethodSpec(s[..k], limit).Err?
    ensures Short(s, k, PTypeSpec(s, limit)) ==> PTypeSpec(s[..k], limit).Err?
  {
    hide PMethodSig, PFieldSig, PLocalSig, PPropertySig, PMethodSpec, PTypeSpec;
    EntryPointsStable(s[..k], s[k..], limit);
    assert s == s[..k] + s[k..];
  }
}
