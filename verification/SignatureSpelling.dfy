/**
 * Which bytes spell a signature tree, said of the tree and without the parser: numbers in any of
 * their widths, tokens with any row id that keeps the low 24 bits, convention bytes with any bit
 * the parser ignores. The parser accepts exactly the spellings of canonical trees within the
 * limits, and returns the tree that was spelled.
 */
module SignatureSpelling {
  import opened Wrappers
  import opened Bytes
  import opened Tokens
  import opened Compressed
  import opened SignatureAst
  import opened SignatureGrammar
  import opened SignatureSound

  // Each relation says that `s` is a spelling followed by `rest`.

  /** The two low bits choose TypeDef, TypeRef or TypeSpec; of the row id above them the token keeps 24 bits. */
  ghost predicate SpellsToken(s: seq<byte>, t: Token, rest: seq<byte>) {
    exists v: nat ::
      SpellsU(s, v, rest) && v % 4 < 3
      && t == 0x100_0000 * (if v % 4 == 0 then 0x02 else if v % 4 == 1 then 0x01 else 0x1B) + v / 4 % 0x100_0000
  }

  ghost predicate SpellsMods(s: seq<byte>, mods: seq<CustomMod>, rest: seq<byte>)
    decreases mods
  {
    if mods == [] then s == rest
    else
      && s != [] && s[0] == (if mods[0].required then 0x1F else 0x20)
      && exists s1 :: SpellsToken(s[1..], mods[0].typeToken, s1) && SpellsMods(s1, mods[1..], rest)
  }

  ghost predicate SpellsUs(s: seq<byte>, vs: seq<nat>, rest: seq<byte>)
    decreases vs
  {
    if vs == [] then s == rest
    else exists s1 :: SpellsU(s, vs[0], s1) && SpellsUs(s1, vs[1..], rest)
  }

  ghost predicate SpellsIs(s: seq<byte>, vs: seq<int>, rest: seq<byte>)
    decreases vs
  {
    if vs == [] then s == rest
    else exists s1 :: SpellsI(s, vs[0], s1) && SpellsIs(s1, vs[1..], rest)
  }

  ghost predicate SpellsSizes(s: seq<byte>, vs: seq<nat>, rest: seq<byte>) {
    exists s1 :: SpellsU(s, |vs|, s1) && SpellsUs(s1, vs, rest)
  }

  ghost predicate SpellsLoBounds(s: seq<byte>, vs: seq<int>, rest: seq<byte>) {
    exists s1 :: SpellsU(s, |vs|, s1) && SpellsIs(s1, vs, rest)
  }

  /** A rank is followed by at least as many bytes, less one: the one rule here that is the parser's own. */
  ghost predicate SpellsShape(s: seq<byte>, shape: ArrayShape, rest: seq<byte>) {
    exists s1, s2 ::
      && SpellsU(s, shape.rank, s1) && shape.rank <= |s1| + 1
      && SpellsSizes(s1, shape.sizes, s2) && SpellsLoBounds(s2, shape.loBounds, rest)
  }

  ghost predicate Head(s: seq<byte>, b: byte) {
    s != [] && s[0] == b
  }

  ghost predicate SpellsType(s: seq<byte>, t: Type, rest: seq<byte>)
    decreases t, 0
  {
    match t
    case Simple(x) => Head(s, SimpleCode(x)) && s[1..] == rest
    case Ptr(mods, inner) => Head(s, 0x0F) && SpellsModsType(s[1..], mods, inner, rest)
    case ByRef(inner) => Head(s, 0x10) && SpellsType(s[1..], inner, rest)
    case ValueType(token) => Head(s, 0x11) && SpellsToken(s[1..], token, rest)
    case Class(token) => Head(s, 0x12) && SpellsToken(s[1..], token, rest)
    case Var(index) => Head(s, 0x13) && SpellsU(s[1..], index, rest)
    case MVar(index) => Head(s, 0x1E) && SpellsU(s[1..], index, rest)
    case Array(element, shape) =>
      Head(s, 0x14) && exists s1 :: SpellsType(s[1..], element, s1) && SpellsShape(s1, shape, rest)
    case SzArray(mods, inner) => Head(s, 0x1D) && SpellsModsType(s[1..], mods, inner, rest)
    case GenericInst(isValueType, def, args) =>
      && Head(s, 0x15) && Head(s[1..], if isValueType then 0x11 else 0x12)
      && exists s1 :: SpellsToken(s[2..], def, s1) && SpellsCountedTypes(s1, args, rest)
    case FnPtr(sig) => Head(s, 0x1B) && SpellsSig(s[1..], sig, rest)
    case Modified(mods, inner) => SpellsModsType(s, mods, inner, rest)
    case Pinned(inner) => Head(s, 0x45) && SpellsType(s[1..], inner, rest)
    case Sentinel => false
    case Internal(_) => false
  }

  ghost predicate SpellsModsType(s: seq<byte>, mods: seq<CustomMod>, inner: Type, rest: seq<byte>)
    decreases inner, 1
  {
    exists s1 :: SpellsMods(s, mods, s1) && SpellsType(s1, inner, rest)
  }

  ghost predicate SpellsTypes(s: seq<byte>, ts: seq<Type>, rest: seq<byte>)
    decreases ts, 0
  {
    if ts == [] then s == rest
    else exists s1 :: SpellsType(s, ts[0], s1) && SpellsTypes(s1, ts[1..], rest)
  }

  ghost predicate SpellsCountedTypes(s: seq<byte>, ts: seq<Type>, rest: seq<byte>)
    decreases ts, 1
  {
    exists s1 :: SpellsU(s, |ts|, s1) && SpellsTypes(s1, ts, rest)
  }

  /** What is left after an optional `BYREF`. */
  function AfterByRef(s: seq<byte>, byRef: bool): seq<byte> {
    if byRef && s != [] then s[1..] else s
  }

  ghost predicate SpellsParam(s: seq<byte>, p: Param, rest: seq<byte>)
    decreases p
  {
    exists s1 ::
      SpellsMods(s, p.mods, s1) && (p.byRef ==> Head(s1, 0x10)) && SpellsType(AfterByRef(s1, p.byRef), p.type_, rest)
  }

  ghost predicate SpellsParams(s: seq<byte>, ps: seq<Param>, rest: seq<byte>)
    decreases ps, 0
  {
    if ps == [] then s == rest
    else exists s1 :: SpellsParam(s, ps[0], s1) && SpellsParams(s1, ps[1..], rest)
  }

  /** The sentinel stands before the first of the parameters after it, where there are any. */
  ghost predicate SpellsVarargs(s: seq<byte>, ps: seq<Param>, rest: seq<byte>)
    decreases ps, 1
  {
    if ps == [] then s == rest else Head(s, 0x41) && SpellsParams(s[1..], ps, rest)
  }

  /** A generic count is there whenever its bit is set, though only the default convention keeps it. */
  ghost predicate SpellsSigHead(s: seq<byte>, conv: CallConv, hasThis: bool, explicitThis: bool, rest: seq<byte>) {
    && s != [] && s[0] % 0x10 == ConvCode(conv)
    && hasThis == (s[0] / 0x20 % 2 == 1) && explicitThis == (s[0] / 0x40 % 2 == 1)
    && if s[0] / 0x10 % 2 == 1
       then conv != Default && exists n: nat :: SpellsU(s[1..], n, rest) && (conv.Generic? ==> n == conv.count)
       else !conv.Generic? && s[1..] == rest
  }

  ghost predicate SpellsSigBody(s: seq<byte>, m: MethodSig, rest: seq<byte>)
    decreases m, 0
  {
    exists s1, s2, s3 ::
      && SpellsU(s, |m.params| + |m.varargs|, s1) && SpellsParam(s1, m.ret, s2)
      && SpellsParams(s2, m.params, s3) && SpellsVarargs(s3, m.varargs, rest)
  }

  ghost predicate SpellsSig(s: seq<byte>, m: MethodSig, rest: seq<byte>)
    decreases m, 1
  {
    exists s1 :: SpellsSigHead(s, m.conv, m.hasThis, m.explicitThis, s1) && SpellsSigBody(s1, m, rest)
  }

  // Numbers, tokens and modifiers.

  lemma UExact(s: seq<byte>, v: nat, rest: seq<byte>)
    ensures PU(s) == Ok((v, rest)) <==> SpellsU(s, v, rest)
  {
    hide ReadU32, SpellsU;
    if PU(s) == Ok((v, rest)) {
      ReadU32Exact(s, v, ReadU32(s).value.1);
    }
    if SpellsU(s, v, rest) {
      SpelledTail(s, v, 0, rest);
      ReadU32Exact(s, v, |s| - |rest|);
    }
  }

  lemma IExact(s: seq<byte>, v: int, rest: seq<byte>)
    ensures PI(s) == Ok((v, rest)) <==> SpellsI(s, v, rest)
  {
    hide ReadI32, SpellsI;
    if PI(s) == Ok((v, rest)) {
      ReadI32Exact(s, v, ReadI32(s).value.1);
    }
    if SpellsI(s, v, rest) {
      SpelledTail(s, 0, v, rest);
      ReadI32Exact(s, v, |s| - |rest|);
    }
  }

  lemma CountSpelled(s: seq<byte>)
    requires PCount(s).Ok?
    ensures SpellsU(s, PCount(s).value.0, PCount(s).value.1)
  {
    hide PU, SpellsU;
    UExact(s, PU(s).value.0, PU(s).value.1);
  }

  lemma TokenExact(s: seq<byte>, t: Token, rest: seq<byte>)
    ensures PToken(s) == Ok((t, rest)) <==> SpellsToken(s, t, rest)
  {
    hide PU, SpellsU;
    forall v: nat ensures PU(s) == Ok((v, rest)) <==> SpellsU(s, v, rest) {
      UExact(s, v, rest);
    }
    if PToken(s) == Ok((t, rest)) {
      assert SpellsU(s, PU(s).value.0, rest);
    }
  }

  lemma {:induction false} ModsComplete(s: seq<byte>, mods: seq<CustomMod>, rest: seq<byte>, room: nat)
    requires SpellsMods(s, mods, rest) && !StartsMod(rest)
    ensures PMods(s, room) == if |mods| <= room then Ok((mods, rest)) else Err(RecursionLimit)
    decreases mods
  {
    hide PToken, SpellsToken;
    if mods == [] {
    } else {
      var s1 :| SpellsToken(s[1..], mods[0].typeToken, s1) && SpellsMods(s1, mods[1..], rest);
      TokenExact(s[1..], mods[0].typeToken, s1);
      if room > 0 {
        ModsComplete(s1, mods[1..], rest, room - 1);
        assert mods == [mods[0]] + mods[1..];
      }
    }
  }

  lemma {:induction false} ModsSound(s: seq<byte>, room: nat)
    requires PMods(s, room).Ok?
    ensures SpellsMods(s, PMods(s, room).value.0, PMods(s, room).value.1)
    decreases room
  {
    hide PToken, SpellsToken;
    if StartsMod(s) {
      var (token, s1) := PToken(s[1..]).value;
      TokenExact(s[1..], token, s1);
      ModsSound(s1, room - 1);
      var mods := PMods(s1, room - 1).value.0;
      assert ([CustomMod(s[0] == CMOD_REQD, token)] + mods)[1..] == mods;
    }
  }

  lemma {:induction false} UsExact(s: seq<byte>, vs: seq<nat>, rest: seq<byte>)
    ensures PUs(s, |vs|) == Ok((vs, rest)) <==> SpellsUs(s, vs, rest)
    decreases vs
  {
    hide PU, SpellsU;
    if vs == [] {
    } else {
      if PUs(s, |vs|) == Ok((vs, rest)) {
        var (v, s1) := PU(s).value;
        UExact(s, v, s1);
        UsExact(s1, vs[1..], rest);
        assert vs[1..] == PUs(s1, |vs| - 1).value.0;
      }
      if SpellsUs(s, vs, rest) {
        var s1 :| SpellsU(s, vs[0], s1) && SpellsUs(s1, vs[1..], rest);
        UExact(s, vs[0], s1);
        UsExact(s1, vs[1..], rest);
        assert vs == [vs[0]] + vs[1..];
      }
    }
  }

  lemma {:induction false} IsExact(s: seq<byte>, vs: seq<int>, rest: seq<byte>)
    ensures PIs(s, |vs|) == Ok((vs, rest)) <==> SpellsIs(s, vs, rest)
    decreases vs
  {
    hide PI, SpellsI;
    if vs == [] {
    } else {
      if PIs(s, |vs|) == Ok((vs, rest)) {
        var (v, s1) := PI(s).value;
        IExact(s, v, s1);
        IsExact(s1, vs[1..], rest);
        assert vs[1..] == PIs(s1, |vs| - 1).value.0;
      }
      if SpellsIs(s, vs, rest) {
        var s1 :| SpellsI(s, vs[0], s1) && SpellsIs(s1, vs[1..], rest);
        IExact(s, vs[0], s1);
        IsExact(s1, vs[1..], rest);
        assert vs == [vs[0]] + vs[1..];
      }
    }
  }

  lemma ShapeExact(s: seq<byte>, shape: ArrayShape, rest: seq<byte>)
    ensures PShape(s) == Ok((shape, rest)) <==> SpellsShape(s, shape, rest)
  {
    if PShape(s).Ok? {
      ShapeSound(s);
    }
    if SpellsShape(s, shape, rest) {
      ShapeComplete(s, shape, rest);
    }
  }

  lemma ShapeSound(s: seq<byte>)
    requires PShape(s).Ok?
    ensures SpellsShape(s, PShape(s).value.0, PShape(s).value.1)
  {
    hide PU, PUs, PIs, SpellsU, SpellsUs, SpellsIs;
    var (rank, s1) := PU(s).value;
    var (n, s2) := PCount(s1).value;
    var (sizes, s3) := PUs(s2, n).value;
    var (k, s4) := PCount(s3).value;
    var (loBounds, s5) := PIs(s4, k).value;
    SoundUs(s2, n);
    SoundIs(s4, k);
    UExact(s, rank, s1);
    CountSpelled(s1);
    CountSpelled(s3);
    UsExact(s2, sizes, s3);
    IsExact(s4, loBounds, s5);
    assert SpellsSizes(s1, sizes, s3) && SpellsLoBounds(s3, loBounds, s5);
  }

  lemma ShapeComplete(s: seq<byte>, shape: ArrayShape, rest: seq<byte>)
    requires SpellsShape(s, shape, rest)
    ensures PShape(s) == Ok((shape, rest))
  {
    hide PU, PUs, PIs, SpellsU, SpellsUs, SpellsIs;
    var s1, s3 :| SpellsU(s, shape.rank, s1) && shape.rank <= |s1| + 1
                  && SpellsSizes(s1, shape.sizes, s3) && SpellsLoBounds(s3, shape.loBounds, rest);
    var s2 :| SpellsU(s1, |shape.sizes|, s2) && SpellsUs(s2, shape.sizes, s3);
    var s4 :| SpellsU(s3, |shape.loBounds|, s4) && SpellsIs(s4, shape.loBounds, rest);
    UExact(s, shape.rank, s1);
    UExact(s1, |shape.sizes|, s2);
    UExact(s3, |shape.loBounds|, s4);
    UsExact(s2, shape.sizes, s3);
    IsExact(s4, shape.loBounds, rest);
    SoundUs(s2, |shape.sizes|);
    SoundIs(s4, |shape.loBounds|);
  }
}
