/**
 * The parser against the spelling relation: a spelling of a canonical tree parses to that tree,
 * or fails at the recursion limit when the tree is too deep for it; and whatever parses is such a
 * spelling. So each entry point accepts exactly the spellings of the trees it may return.
 */
module SignatureExact {
  import opened Wrappers
  import opened Bytes
  import opened Tokens
  import opened Compressed
  import opened SignatureAst
  import opened SignatureGrammar
  import opened SignatureRoundTrip
  import opened SignatureSound
  import opened SignatureSpelling

  // What a spelling starts with and how long it is.

  lemma SpelledHead(s: seq<byte>, t: Type, rest: seq<byte>, pinned: bool)
    requires SpellsType(s, t, rest) && CanonType(t, pinned)
    ensures s != []
    ensures StartsMod(s) <==> t.Modified?
    ensures s[0] == BYREF <==> t.ByRef?
    ensures s[0] == PINNED <==> t.Pinned?
    ensures s[0] != SENTINEL
  {
    hide SpellsToken, SpellsU, SpellsShape, SpellsCountedTypes, SpellsSig;
  }

  lemma {:induction false} ModsLonger(s: seq<byte>, mods: seq<CustomMod>, rest: seq<byte>)
    requires SpellsMods(s, mods, rest)
    ensures |s| >= |rest|
    decreases mods
  {
    hide SpellsToken;
    if mods == [] {
    } else {
      var s1 :| SpellsToken(s[1..], mods[0].typeToken, s1) && SpellsMods(s1, mods[1..], rest);
      TokenLonger(s[1..], mods[0].typeToken, s1);
      ModsLonger(s1, mods[1..], rest);
    }
  }

  lemma ULonger(s: seq<byte>, v: nat, rest: seq<byte>)
    requires SpellsU(s, v, rest)
    ensures |s| > |rest|
  {}

  lemma TokenLonger(s: seq<byte>, t: Token, rest: seq<byte>)
    requires SpellsToken(s, t, rest)
    ensures |s| > |rest|
  {
    hide SpellsU;
    var v: nat :| SpellsU(s, v, rest);
    ULonger(s, v, rest);
  }

  lemma {:induction false} TypeLonger(s: seq<byte>, t: Type, rest: seq<byte>)
    requires SpellsType(s, t, rest)
    ensures |s| > |rest|
    decreases t, 0
  {
    hide SpellsToken, SpellsU, SpellsShape, SpellsModsType, SpellsCountedTypes, SpellsSig;
    match t
    case Simple(_) =>
    case Ptr(mods, inner) => ModsTypeLonger(s[1..], mods, inner, rest);
    case ByRef(inner) => TypeLonger(s[1..], inner, rest);
    case ValueType(token) => TokenLonger(s[1..], token, rest);
    case Class(token) => TokenLonger(s[1..], token, rest);
    case Var(index) => ULonger(s[1..], index, rest);
    case MVar(index) => ULonger(s[1..], index, rest);
    case Array(element, shape) =>
      var s1 :| SpellsType(s[1..], element, s1) && SpellsShape(s1, shape, rest);
      TypeLonger(s[1..], element, s1);
      ShapeExact(s1, shape, rest);
      SoundShape(s1);
    case SzArray(mods, inner) => ModsTypeLonger(s[1..], mods, inner, rest);
    case GenericInst(_, def, args) =>
      var s1 :| SpellsToken(s[2..], def, s1) && SpellsCountedTypes(s1, args, rest);
      TokenLonger(s[2..], def, s1);
      CountedLonger(s1, args, rest);
    case FnPtr(sig) => SigLonger(s[1..], sig, rest);
    case Modified(mods, inner) => ModsTypeLonger(s, mods, inner, rest);
    case Pinned(inner) => TypeLonger(s[1..], inner, rest);
  }

  lemma {:induction false} ModsTypeLonger(s: seq<byte>, mods: seq<CustomMod>, inner: Type, rest: seq<byte>)
    requires SpellsModsType(s, mods, inner, rest)
    ensures |s| > |rest|
    decreases inner, 1
  {
    hide SpellsMods, SpellsType;
    var s1 :| SpellsMods(s, mods, s1) && SpellsType(s1, inner, rest);
    ModsLonger(s, mods, s1);
    TypeLonger(s1, inner, rest);
  }

  lemma {:induction false} TypesLonger(s: seq<byte>, ts: seq<Type>, rest: seq<byte>)
    requires SpellsTypes(s, ts, rest)
    ensures |s| >= |ts| + |rest|
    decreases ts, 0
  {
    hide SpellsType;
    if ts == [] {
    } else {
      var s1 :| SpellsType(s, ts[0], s1) && SpellsTypes(s1, ts[1..], rest);
      TypeLonger(s, ts[0], s1);
      TypesLonger(s1, ts[1..], rest);
    }
  }

  lemma {:induction false} CountedLonger(s: seq<byte>, ts: seq<Type>, rest: seq<byte>)
    requires SpellsCountedTypes(s, ts, rest)
    ensures |s| > |rest|
    decreases ts, 1
  {
    hide SpellsU, SpellsTypes;
    var s1 :| SpellsU(s, |ts|, s1) && SpellsTypes(s1, ts, rest);
    ULonger(s, |ts|, s1);
    TypesLonger(s1, ts, rest);
  }

  lemma {:induction false} ParamLonger(s: seq<byte>, p: Param, rest: seq<byte>)
    requires SpellsParam(s, p, rest)
    ensures |s| > |rest|
    decreases p
  {
    hide SpellsMods, SpellsType;
    var s1 :| SpellsMods(s, p.mods, s1) && (p.byRef ==> Head(s1, BYREF)) && SpellsType(AfterByRef(s1, p.byRef), p.type_, rest);
    ModsLonger(s, p.mods, s1);
    TypeLonger(AfterByRef(s1, p.byRef), p.type_, rest);
  }

  lemma {:induction false} ParamsLonger(s: seq<byte>, ps: seq<Param>, rest: seq<byte>)
    requires SpellsParams(s, ps, rest)
    ensures |s| >= |ps| + |rest|
    decreases ps, 0
  {
    hide SpellsParam;
    if ps == [] {
    } else {
      var s1 :| SpellsParam(s, ps[0], s1) && SpellsParams(s1, ps[1..], rest);
      ParamLonger(s, ps[0], s1);
      ParamsLonger(s1, ps[1..], rest);
    }
  }

  lemma {:induction false} SigLonger(s: seq<byte>, m: MethodSig, rest: seq<byte>)
    requires SpellsSig(s, m, rest)
    ensures |s| > |rest|
    decreases m
  {
    hide SpellsU, SpellsSigHead, SpellsParam, SpellsParams, SpellsVarargs;
    var s0 :| SpellsSigHead(s, m.conv, m.hasThis, m.explicitThis, s0) && SpellsSigBody(s0, m, rest);
    HeadLonger(s, m.conv, m.hasThis, m.explicitThis, s0);
    assert SpellsSigBody(s0, m, rest);
    var s1, s2, s3 :| SpellsU(s0, |m.params| + |m.varargs|, s1) && SpellsParam(s1, m.ret, s2)
                      && SpellsParams(s2, m.params, s3) && SpellsVarargs(s3, m.varargs, rest);
    ULonger(s0, |m.params| + |m.varargs|, s1);
    ParamLonger(s1, m.ret, s2);
    ParamsLonger(s2, m.params, s3);
    VarargsLonger(s3, m.varargs, rest);
  }

  lemma {:induction false} VarargsLonger(s: seq<byte>, ps: seq<Param>, rest: seq<byte>)
    requires SpellsVarargs(s, ps, rest)
    ensures |s| >= |ps| + |rest|
    decreases ps, 1
  {
    hide SpellsParams;
    if ps == [] {
    } else {
      ParamsLonger(s[1..], ps, rest);
    }
  }

  lemma HeadLonger(s: seq<byte>, conv: CallConv, hasThis: bool, explicitThis: bool, rest: seq<byte>)
    requires SpellsSigHead(s, conv, hasThis, explicitThis, rest)
    ensures |s| > |rest|
  {
    hide SpellsU, ConvCode;
    if s[0] / 0x10 % 2 == 1 {
      var n: nat :| SpellsU(s[1..], n, rest) && (conv.Generic? ==> n == conv.count);
      ULonger(s[1..], n, rest);
    }
  }

  // A spelling parses to its tree, or stops at the recursion limit.

  ghost predicate Landed<T(!new)>(r: Parsed<T>, x: T, rest: seq<byte>, fits: bool) {
    r == if fits then Ok((x, rest)) else Err(RecursionLimit)
  }

  lemma {:induction false} TypeComplete(s: seq<byte>, t: Type, rest: seq<byte>, limit: nat, depth: nat, pinned: bool)
    requires depth <= limit && CanonType(t, pinned) && SpellsType(s, t, rest)
    ensures Landed(PType(s, limit, depth, pinned), t, rest, depth + Depth(t) <= limit && LongestMods(t) <= limit)
    decreases t, 2
  {
    hide SpellsType, PTypeInner, LongestMods;
    if depth < limit {
      match t
      case Simple(_) => LeafComplete(s, t, rest, limit, depth, pinned);
      case Ptr(_, _) => PointerComplete(s, t, rest, limit, depth, pinned);
      case SzArray(_, _) => PointerComplete(s, t, rest, limit, depth, pinned);
      case ByRef(_) => WrapperComplete(s, t, rest, limit, depth, pinned);
      case Pinned(_) => WrapperComplete(s, t, rest, limit, depth, pinned);
      case ValueType(_) => LeafComplete(s, t, rest, limit, depth, pinned);
      case Class(_) => LeafComplete(s, t, rest, limit, depth, pinned);
      case Var(_) => LeafComplete(s, t, rest, limit, depth, pinned);
      case MVar(_) => LeafComplete(s, t, rest, limit, depth, pinned);
      case Array(_, _) => ArrayComplete(s, t, rest, limit, depth, pinned);
      case GenericInst(_, _, _) => GenericInstComplete(s, t, rest, limit, depth, pinned);
      case FnPtr(_) => FnPtrComplete(s, t, rest, limit, depth, pinned);
      case Modified(_, _) => ModifiedComplete(s, t, rest, limit, depth, pinned);
    }
  }

  ghost predicate InnerLanded(s: seq<byte>, t: Type, rest: seq<byte>, limit: nat, depth: nat, pinned: bool)
    requires depth < limit
  {
    Landed(PTypeInner(s, limit, depth + 1, pinned), t, rest, depth + Depth(t) <= limit && LongestMods(t) <= limit)
  }

  lemma BodyNext(s: seq<byte>, b: byte, limit: nat, depth: nat, pinned: bool)
    requires depth <= limit && Head(s, b) && b != CMOD_REQD && b != CMOD_OPT
    ensures PTypeInner(s, limit, depth, pinned) == PTypeBody(b, s[1..], limit, depth, pinned)
  {
    assert s == [b] + s[1..];
    InnerStep(b, s[1..], limit, depth, pinned);
  }

  lemma LeafComplete(s: seq<byte>, t: Type, rest: seq<byte>, limit: nat, depth: nat, pinned: bool)
    requires depth < limit && CanonType(t, pinned) && SpellsType(s, t, rest)
    requires t.Simple? || t.ValueType? || t.Class? || t.Var? || t.MVar?
    ensures InnerLanded(s, t, rest, limit, depth, pinned)
  {
    hide PU, PToken, PCount, PShape, PModsType, PTypes, PSig, PTypeInner, SpellsU, SpellsToken;
    hide SpellsShape, SpellsModsType, SpellsCountedTypes, SpellsSig;
    BodyNext(s, s[0], limit, depth + 1, pinned);
    if t.ValueType? || t.Class? {
      TokenExact(s[1..], t.token, rest);
    } else if t.Var? || t.MVar? {
      UExact(s[1..], t.index, rest);
    }
  }

  lemma {:induction false} FnPtrComplete(s: seq<byte>, t: Type, rest: seq<byte>, limit: nat, depth: nat, pinned: bool)
    requires depth < limit && CanonType(t, pinned) && SpellsType(s, t, rest) && t.FnPtr?
    ensures InnerLanded(s, t, rest, limit, depth, pinned)
    decreases t, 0
  {
    hide PSig, SpellsSig;
    BodyNext(s, FNPTR, limit, depth + 1, pinned);
    SigComplete(s[1..], t.sig, rest, limit, depth + 1, pinned);
  }

  lemma {:induction false} WrapperComplete(s: seq<byte>, t: Type, rest: seq<byte>, limit: nat, depth: nat, pinned: bool)
    requires depth < limit && CanonType(t, pinned) && SpellsType(s, t, rest) && (t.ByRef? || t.Pinned?)
    ensures InnerLanded(s, t, rest, limit, depth, pinned)
    decreases t, 0
  {
    hide PToken, PU, PCount, PShape, PModsType, PTypes, PSig, PTypeInner;
    hide SpellsToken, SpellsU, SpellsShape, SpellsModsType, SpellsCountedTypes, SpellsSig;
    BodyNext(s, s[0], limit, depth + 1, pinned);
    TypeComplete(s[1..], t.inner, rest, limit, depth + 1, pinned || t.Pinned?);
  }

  lemma {:induction false} ModsTypeComplete(s: seq<byte>, mods: seq<CustomMod>, inner: Type, rest: seq<byte>, limit: nat, depth: nat, pinned: bool)
    requires depth <= limit && SpellsModsType(s, mods, inner, rest) && !inner.Modified? && CanonType(inner, pinned)
    ensures Landed(PModsType(s, limit, depth, pinned), (mods, inner), rest,
                   depth + Depth(inner) <= limit && |mods| <= limit && LongestMods(inner) <= limit)
    decreases inner, 3
  {
    hide SpellsMods, SpellsType, PMods, PType;
    var s1 :| SpellsMods(s, mods, s1) && SpellsType(s1, inner, rest);
    SpelledHead(s1, inner, rest, pinned);
    ModsComplete(s, mods, s1, limit);
    TypeComplete(s1, inner, rest, limit, depth, pinned);
  }

  lemma {:induction false} PointerComplete(s: seq<byte>, t: Type, rest: seq<byte>, limit: nat, depth: nat, pinned: bool)
    requires depth < limit && CanonType(t, pinned) && SpellsType(s, t, rest) && (t.Ptr? || t.SzArray?)
    ensures InnerLanded(s, t, rest, limit, depth, pinned)
    decreases t, 0
  {
    hide SpellsModsType, PModsType;
    BodyNext(s, s[0], limit, depth + 1, pinned);
    ModsTypeComplete(s[1..], t.mods, t.inner, rest, limit, depth + 1, pinned);
  }

  lemma {:induction false} ModifiedComplete(s: seq<byte>, t: Type, rest: seq<byte>, limit: nat, depth: nat, pinned: bool)
    requires depth < limit && CanonType(t, pinned) && SpellsType(s, t, rest) && t.Modified?
    ensures InnerLanded(s, t, rest, limit, depth, pinned)
    decreases t, 0
  {
    hide SpellsMods, PMods, PType;
    var s1 :| SpellsMods(s, t.mods, s1) && SpellsType(s1, t.inner, rest);
    SpelledHead(s1, t.inner, rest, pinned);
    ModsComplete(s, t.mods, s1, limit);
    TypeComplete(s1, t.inner, rest, limit, depth + 1, pinned);
  }

  lemma {:induction false} ArrayComplete(s: seq<byte>, t: Type, rest: seq<byte>, limit: nat, depth: nat, pinned: bool)
    requires depth < limit && CanonType(t, pinned) && SpellsType(s, t, rest) && t.Array?
    ensures InnerLanded(s, t, rest, limit, depth, pinned)
    decreases t, 0
  {
    hide SpellsShape, PShape, PType, PTypeBody;
    BodyNext(s, ARRAY, limit, depth + 1, pinned);
    ArrayStep(s[1..], limit, depth + 1, pinned);
    var s1 :| SpellsType(s[1..], t.element, s1) && SpellsShape(s1, t.shape, rest);
    TypeComplete(s[1..], t.element, s1, limit, depth + 1, pinned);
    ShapeComplete(s1, t.shape, rest);
  }

  lemma {:induction false} GenericInstComplete(s: seq<byte>, t: Type, rest: seq<byte>, limit: nat, depth: nat, pinned: bool)
    requires depth < limit && CanonType(t, pinned) && SpellsType(s, t, rest) && t.GenericInst?
    ensures InnerLanded(s, t, rest, limit, depth, pinned)
    decreases t, 0
  {
    hide SpellsToken, SpellsU, SpellsTypes, PToken, PU, PTypes;
    BodyNext(s, GENERICINST, limit, depth + 1, pinned);
    var s1 :| SpellsToken(s[2..], t.def, s1) && SpellsCountedTypes(s1, t.args, rest);
    var s2 :| SpellsU(s1, |t.args|, s2) && SpellsTypes(s2, t.args, rest);
    assert s[1..][1..] == s[2..];
    TokenExact(s[2..], t.def, s1);
    UExact(s1, |t.args|, s2);
    TypesLonger(s2, t.args, rest);
    TypesComplete(s2, t.args, rest, limit, depth + 1, pinned);
  }

  lemma {:induction false} TypesComplete(s: seq<byte>, ts: seq<Type>, rest: seq<byte>, limit: nat, depth: nat, pinned: bool)
    requires depth <= limit && CanonTypes(ts, pinned) && SpellsTypes(s, ts, rest)
    ensures Landed(PTypes(s, |ts|, limit, depth, pinned), ts, rest, depth + DepthTypes(ts) <= limit && LongestModsTypes(ts) <= limit)
    decreases ts
  {
    hide SpellsType, PType;
    if ts == [] {
    } else {
      var s1 :| SpellsType(s, ts[0], s1) && SpellsTypes(s1, ts[1..], rest);
      TypeComplete(s, ts[0], s1, limit, depth, pinned);
      TypesComplete(s1, ts[1..], rest, limit, depth, pinned);
      assert ts == [ts[0]] + ts[1..];
    }
  }

  lemma {:induction false} ParamComplete(s: seq<byte>, p: Param, rest: seq<byte>, limit: nat, depth: nat, pinned: bool)
    requires depth <= limit && CanonParam(p, pinned) && SpellsParam(s, p, rest)
    ensures Landed(PParam(s, limit, depth, pinned), p, rest, depth + Depth(p.type_) <= limit && LongestModsParam(p) <= limit)
    decreases p
  {
    hide SpellsMods, SpellsType, PMods, PType;
    var s1 :| SpellsMods(s, p.mods, s1) && (p.byRef ==> Head(s1, BYREF)) && SpellsType(AfterByRef(s1, p.byRef), p.type_, rest);
    SpelledHead(AfterByRef(s1, p.byRef), p.type_, rest, pinned);
    ModsComplete(s, p.mods, s1, limit);
    TypeComplete(AfterByRef(s1, p.byRef), p.type_, rest, limit, depth, pinned);
  }

  lemma {:induction false} ParamStart(s: seq<byte>, p: Param, rest: seq<byte>, pinned: bool)
    requires SpellsParam(s, p, rest) && CanonParam(p, pinned)
    ensures s != [] && s[0] != SENTINEL
  {
    hide SpellsToken, SpellsType;
    var s1 :| SpellsMods(s, p.mods, s1) && (p.byRef ==> Head(s1, BYREF)) && SpellsType(AfterByRef(s1, p.byRef), p.type_, rest);
    SpelledHead(AfterByRef(s1, p.byRef), p.type_, rest, pinned);
  }

  lemma {:induction false} ParamsComplete(s: seq<byte>, ps: seq<Param>, rest: seq<byte>, limit: nat, depth: nat, pinned: bool)
    requires depth <= limit && CanonParams(ps, pinned) && SpellsParams(s, ps, rest)
    ensures Landed(PParams(s, |ps|, limit, depth, pinned), ps, rest, depth + DepthParams(ps) <= limit && LongestModsParams(ps) <= limit)
    decreases ps
  {
    hide SpellsParam, PParam;
    if ps == [] {
    } else {
      var s1 :| SpellsParam(s, ps[0], s1) && SpellsParams(s1, ps[1..], rest);
      ParamComplete(s, ps[0], s1, limit, depth, pinned);
      ParamsComplete(s1, ps[1..], rest, limit, depth, pinned);
      assert ps == [ps[0]] + ps[1..];
    }
  }

  lemma {:induction false} PastComplete(s: seq<byte>, ps: seq<Param>, rest: seq<byte>, limit: nat, depth: nat, pinned: bool)
    requires depth <= limit && CanonParams(ps, pinned) && SpellsParams(s, ps, rest)
    ensures Landed(PSplit(s, |ps|, true, limit, depth, pinned), ([], ps), rest, depth + DepthParams(ps) <= limit && LongestModsParams(ps) <= limit)
    decreases ps
  {
    hide SpellsParam, PParam;
    if ps == [] {
    } else {
      var s1 :| SpellsParam(s, ps[0], s1) && SpellsParams(s1, ps[1..], rest);
      ParamStart(s, ps[0], s1, pinned);
      ParamComplete(s, ps[0], s1, limit, depth, pinned);
      PastComplete(s1, ps[1..], rest, limit, depth, pinned);
      assert ps == [ps[0]] + ps[1..];
    }
  }

  lemma {:induction false} VarargsComplete(s: seq<byte>, ps: seq<Param>, rest: seq<byte>, limit: nat, depth: nat, pinned: bool)
    requires depth <= limit && CanonParams(ps, pinned) && SpellsVarargs(s, ps, rest)
    ensures Landed(PSplit(s, |ps|, false, limit, depth, pinned), ([], ps), rest, depth + DepthParams(ps) <= limit && LongestModsParams(ps) <= limit)
    decreases ps
  {
    hide SpellsParam, PParam;
    if ps == [] {
    } else {
      assert SpellsParams(s[1..], ps, rest);
      var s1 :| SpellsParam(s[1..], ps[0], s1) && SpellsParams(s1, ps[1..], rest);
      ParamComplete(s[1..], ps[0], s1, limit, depth, pinned);
      PastComplete(s1, ps[1..], rest, limit, depth, pinned);
      assert ps == [ps[0]] + ps[1..];
    }
  }

  lemma {:induction false} SplitComplete(s: seq<byte>, ps: seq<Param>, mid: seq<byte>, vs: seq<Param>, rest: seq<byte>,
                                         limit: nat, depth: nat, pinned: bool, fits: bool)
    requires depth <= limit && CanonParams(ps, pinned) && SpellsParams(s, ps, mid)
    requires Landed(PSplit(mid, |vs|, false, limit, depth, pinned), ([], vs), rest, fits)
    ensures Landed(PSplit(s, |ps| + |vs|, false, limit, depth, pinned), (ps, vs), rest,
                   depth + DepthParams(ps) <= limit && LongestModsParams(ps) <= limit && fits)
    decreases ps
  {
    hide SpellsParam, PParam;
    if ps == [] {
    } else {
      var s1 :| SpellsParam(s, ps[0], s1) && SpellsParams(s1, ps[1..], mid);
      ParamStart(s, ps[0], s1, pinned);
      ParamComplete(s, ps[0], s1, limit, depth, pinned);
      SplitComplete(s1, ps[1..], mid, vs, rest, limit, depth, pinned, fits);
      assert ps == [ps[0]] + ps[1..];
    }
  }

  lemma HeadExact(s: seq<byte>, conv: CallConv, hasThis: bool, explicitThis: bool, rest: seq<byte>)
    requires CanonConv(conv)
    ensures PSigHead(s) == Ok(((conv, hasThis, explicitThis), rest)) <==> SpellsSigHead(s, conv, hasThis, explicitThis, rest)
  {
    hide PU, SpellsU;
    if s != [] {
      forall n: nat ensures PU(s[1..]) == Ok((n, rest)) <==> SpellsU(s[1..], n, rest) {
        UExact(s[1..], n, rest);
      }
      if PSigHead(s) == Ok(((conv, hasThis, explicitThis), rest)) && Bit(s[0], 0x10) {
        assert SpellsU(s[1..], PU(s[1..]).value.0, rest);
      }
    }
  }

  lemma {:induction false} SigComplete(s: seq<byte>, m: MethodSig, rest: seq<byte>, limit: nat, depth: nat, pinned: bool)
    requires depth <= limit && CanonSig(m, pinned) && SpellsSig(s, m, rest)
    ensures Landed(PSig(s, limit, depth, pinned), m, rest, depth + DepthSig(m) <= limit && LongestModsSig(m) <= limit)
    decreases m, 1
  {
    hide SpellsSigHead, SpellsSigBody, PSigHead, PSigBody;
    if depth < limit {
      var s1 :| SpellsSigHead(s, m.conv, m.hasThis, m.explicitThis, s1) && SpellsSigBody(s1, m, rest);
      HeadExact(s, m.conv, m.hasThis, m.explicitThis, s1);
      SigBodyComplete(s1, m, rest, limit, depth + 1, pinned);
    }
  }

  lemma {:induction false} SigBodyComplete(s: seq<byte>, m: MethodSig, rest: seq<byte>, limit: nat, depth: nat, pinned: bool)
    requires depth <= limit && CanonSig(m, pinned) && SpellsSigBody(s, m, rest)
    ensures Landed(PSigBody(s, limit, depth, pinned), (m.ret, (m.params, m.varargs)), rest,
                   depth + DepthSig(m) <= limit + 1 && LongestModsSig(m) <= limit)
    decreases m, 0
  {
    hide SpellsU, SpellsParam, SpellsParams, SpellsVarargs, PU, PParam, PSplit;
    var s1, s2, s3 :| SpellsU(s, |m.params| + |m.varargs|, s1) && SpellsParam(s1, m.ret, s2)
                      && SpellsParams(s2, m.params, s3) && SpellsVarargs(s3, m.varargs, rest);
    UExact(s, |m.params| + |m.varargs|, s1);
    ParamLonger(s1, m.ret, s2);
    ParamsLonger(s2, m.params, s3);
    VarargsLonger(s3, m.varargs, rest);
    ParamComplete(s1, m.ret, s2, limit, depth, pinned);
    VarargsComplete(s3, m.varargs, rest, limit, depth, pinned);
    SplitComplete(s2, m.params, s3, m.varargs, rest, limit, depth, pinned,
                  depth + DepthParams(m.varargs) <= limit && LongestModsParams(m.varargs) <= limit);
  }

  // What parses is a spelling of its tree.

  lemma {:induction false} TypeSpelled(s: seq<byte>, limit: nat, depth: nat, pinned: bool)
    requires depth <= limit && PType(s, limit, depth, pinned).Ok?
    ensures SpellsType(s, PType(s, limit, depth, pinned).value.0, PType(s, limit, depth, pinned).value.1)
    decreases limit - depth, 0
  {
    hide PTypeInner, SpellsType;
    assert PTypeInner(s, limit, depth + 1, pinned).Ok?;
    InnerSpelled(s, limit, depth + 1, pinned);
  }

  lemma {:induction false} InnerSpelled(s: seq<byte>, limit: nat, depth: nat, pinned: bool)
    requires depth <= limit && PTypeInner(s, limit, depth, pinned).Ok?
    ensures SpellsType(s, PTypeInner(s, limit, depth, pinned).value.0, PTypeInner(s, limit, depth, pinned).value.1)
    decreases limit - depth, 6
  {
    hide PTypeBody, PMods, PType, SpellsMods;
    var (leading, s0) := PMods(s, limit).value;
    SoundMods(s, limit);
    if leading != [] {
      ModsSound(s, limit);
      hide SpellsType;
      TypeSpelled(s0, limit, depth, pinned);
      ModifiedSpelled(s, leading, s0, PType(s0, limit, depth, pinned).value.0, PType(s0, limit, depth, pinned).value.1);
    } else {
      BodySpelled(s, limit, depth, pinned);
    }
  }

  lemma ModifiedSpelled(s: seq<byte>, mods: seq<CustomMod>, s0: seq<byte>, inner: Type, rest: seq<byte>)
    requires SpellsMods(s, mods, s0) && SpellsType(s0, inner, rest)
    ensures SpellsModsType(s, mods, inner, rest) && SpellsType(s, Modified(mods, inner), rest)
  {
    hide SpellsMods;
  }

  /** A type that starts with its element-type byte. */
  lemma {:induction false} BodySpelled(s: seq<byte>, limit: nat, depth: nat, pinned: bool)
    requires depth <= limit && s != [] && PTypeBody(s[0], s[1..], limit, depth, pinned).Ok?
    ensures SpellsType(s, PTypeBody(s[0], s[1..], limit, depth, pinned).value.0, PTypeBody(s[0], s[1..], limit, depth, pinned).value.1)
    decreases limit - depth, 5
  {
    hide PToken, PU, PShape, PModsType, PTypes, PSig, PCount, PType, SpellsToken, SpellsU, SpellsShape, SpellsModsType, SpellsCountedTypes, SpellsSig;
    var b, s1 := s[0], s[1..];
    if SimpleOf(b).Some? {
      SimpleSpelled(b);
    } else if b == PTR || b == SZARRAY {
      ModsTypeSpelled(s1, limit, depth, pinned);
    } else if b == BYREF {
      TypeSpelled(s1, limit, depth, pinned);
    } else if b == PINNED {
      TypeSpelled(s1, limit, depth, true);
    } else if b == VALUETYPE || b == CLASS {
      TokenExact(s1, PToken(s1).value.0, PToken(s1).value.1);
    } else if b == VAR || b == MVAR {
      UExact(s1, PU(s1).value.0, PU(s1).value.1);
    } else if b == ARRAY {
      TypeSpelled(s1, limit, depth, pinned);
      var s2 := PType(s1, limit, depth, pinned).value.1;
      ShapeExact(s2, PShape(s2).value.0, PShape(s2).value.1);
    } else if b == GENERICINST {
      GenericInstSpelled(s, limit, depth, pinned);
    } else {
      SigSpelled(s1, limit, depth, pinned);
    }
  }

  lemma SimpleSpelled(b: byte)
    requires SimpleOf(b).Some?
    ensures SimpleCode(SimpleOf(b).value) == b
  {}

  lemma {:induction false} GenericInstSpelled(s: seq<byte>, limit: nat, depth: nat, pinned: bool)
    requires depth <= limit && Head(s, GENERICINST) && PTypeBody(GENERICINST, s[1..], limit, depth, pinned).Ok?
    ensures var (t, rest) := PTypeBody(GENERICINST, s[1..], limit, depth, pinned).value; SpellsType(s, t, rest)
    decreases limit - depth, 4
  {
    hide PToken, PU, PTypes, SpellsToken, SpellsU, SpellsTypes;
    var s1 := s[2..];
    assert s[1..][1..] == s1;
    var (def, s2) := PToken(s1).value;
    var (count, s3) := PCount(s2).value;
    var (args, rest) := PTypes(s3, count, limit, depth, pinned).value;
    TokenExact(s1, def, s2);
    CountSpelled(s2);
    TypesSpelled(s3, count, limit, depth, pinned);
    assert SpellsCountedTypes(s2, args, rest);
  }

  lemma {:induction false} ModsTypeSpelled(s: seq<byte>, limit: nat, depth: nat, pinned: bool)
    requires depth <= limit && PModsType(s, limit, depth, pinned).Ok?
    ensures var ((mods, inner), rest) := PModsType(s, limit, depth, pinned).value; SpellsModsType(s, mods, inner, rest)
    decreases limit - depth, 1
  {
    hide PMods, PType, SpellsMods, SpellsType;
    ModsSound(s, limit);
    TypeSpelled(PMods(s, limit).value.1, limit, depth, pinned);
  }

  lemma {:induction false} TypesSpelled(s: seq<byte>, n: nat, limit: nat, depth: nat, pinned: bool)
    requires depth <= limit && PTypes(s, n, limit, depth, pinned).Ok?
    ensures var (ts, rest) := PTypes(s, n, limit, depth, pinned).value; |ts| == n && SpellsTypes(s, ts, rest)
    decreases limit - depth, 2, n
  {
    hide PType, SpellsType;
    if n == 0 {
    } else {
      var (t, s1) := PType(s, limit, depth, pinned).value;
      TypeSpelled(s, limit, depth, pinned);
      TypesSpelled(s1, n - 1, limit, depth, pinned);
      var ts := PTypes(s1, n - 1, limit, depth, pinned).value.0;
      assert ([t] + ts)[1..] == ts;
    }
  }

  lemma {:induction false} ParamSpelled(s: seq<byte>, limit: nat, depth: nat, pinned: bool)
    requires depth <= limit && PParam(s, limit, depth, pinned).Ok?
    ensures SpellsParam(s, PParam(s, limit, depth, pinned).value.0, PParam(s, limit, depth, pinned).value.1)
    decreases limit - depth, 1
  {
    hide PMods, PType, SpellsMods, SpellsType;
    ModsSound(s, limit);
    var (mods, s1) := PMods(s, limit).value;
    TypeSpelled(if s1[0] == BYREF then s1[1..] else s1, limit, depth, pinned);
  }

  lemma {:induction false} ParamsSpelled(s: seq<byte>, n: nat, limit: nat, depth: nat, pinned: bool)
    requires depth <= limit && PParams(s, n, limit, depth, pinned).Ok?
    ensures var (ps, rest) := PParams(s, n, limit, depth, pinned).value; |ps| == n && SpellsParams(s, ps, rest)
    decreases limit - depth, 2, n
  {
    hide PParam, SpellsParam;
    if n == 0 {
    } else {
      var (p, s1) := PParam(s, limit, depth, pinned).value;
      ParamSpelled(s, limit, depth, pinned);
      ParamsSpelled(s1, n - 1, limit, depth, pinned);
      var ps := PParams(s1, n - 1, limit, depth, pinned).value.0;
      assert ([p] + ps)[1..] == ps;
    }
  }

  /** Where the split list leaves its first part: the parameters before, and then those after the sentinel. */
  ghost predicate SpellsSplit(s: seq<byte>, ps: seq<Param>, vs: seq<Param>, past: bool, rest: seq<byte>) {
    if past then ps == [] && SpellsParams(s, vs, rest)
    else exists s1 :: SpellsParams(s, ps, s1) && SpellsVarargs(s1, vs, rest)
  }

  lemma {:induction false} SplitSpelled(s: seq<byte>, n: nat, past: bool, limit: nat, depth: nat, pinned: bool)
    requires depth <= limit && PSplit(s, n, past, limit, depth, pinned).Ok?
    ensures var ((ps, vs), rest) := PSplit(s, n, past, limit, depth, pinned).value;
            |ps| + |vs| == n && SpellsSplit(s, ps, vs, past, rest)
    decreases limit - depth, 2, n
  {
    hide PParam, SpellsParam;
    if n == 0 {
      assert SpellsParams(s, [], s) && SpellsVarargs(s, [], s);
    } else {
      var past' := past || s[0] == SENTINEL;
      var s0 := if s[0] == SENTINEL then s[1..] else s;
      var (p, s1) := PParam(s0, limit, depth, pinned).value;
      var ((ps, vs), rest) := PSplit(s1, n - 1, past', limit, depth, pinned).value;
      ParamSpelled(s0, limit, depth, pinned);
      SplitSpelled(s1, n - 1, past', limit, depth, pinned);
      SplitStep(s, s0, p, s1, ps, vs, past, rest);
    }
  }

  lemma SplitStep(s: seq<byte>, s0: seq<byte>, p: Param, s1: seq<byte>, ps: seq<Param>, vs: seq<Param>, past: bool, rest: seq<byte>)
    requires s != [] && s0 == (if s[0] == SENTINEL then s[1..] else s) && !(past && s[0] == SENTINEL)
    requires SpellsParam(s0, p, s1) && SpellsSplit(s1, ps, vs, past || s[0] == SENTINEL, rest)
    ensures if past || s[0] == SENTINEL then SpellsSplit(s, ps, [p] + vs, past, rest) else SpellsSplit(s, [p] + ps, vs, past, rest)
  {
    hide SpellsParam;
    assert ([p] + vs)[1..] == vs && ([p] + ps)[1..] == ps;
    if past || s[0] == SENTINEL {
      assert SpellsParams(s0, [p] + vs, rest);
      if !past {
        assert SpellsParams(s, [], s) && SpellsVarargs(s, [p] + vs, rest);
      }
    } else {
      var s2 :| SpellsParams(s1, ps, s2) && SpellsVarargs(s2, vs, rest);
      assert SpellsParams(s, [p] + ps, s2);
    }
  }

  lemma {:induction false} SigSpelled(s: seq<byte>, limit: nat, depth: nat, pinned: bool)
    requires depth <= limit && PSig(s, limit, depth, pinned).Ok?
    ensures SpellsSig(s, PSig(s, limit, depth, pinned).value.0, PSig(s, limit, depth, pinned).value.1)
    decreases limit - depth, 4
  {
    hide PSigHead, PSigBody, SpellsSigHead, SpellsSigBody;
    assert PSigInner(s, limit, depth + 1, pinned).Ok?;
    var (head, s1) := PSigHead(s).value;
    SoundSigHead(s);
    HeadExact(s, head.0, head.1, head.2, s1);
    SigBodySpelled(s1, head, limit, depth + 1, pinned);
  }

  lemma {:induction false} SigBodySpelled(s: seq<byte>, head: (CallConv, bool, bool), limit: nat, depth: nat, pinned: bool)
    requires depth <= limit && PSigBody(s, limit, depth, pinned).Ok?
    ensures var ((ret, (ps, vs)), rest) := PSigBody(s, limit, depth, pinned).value;
            SpellsSigBody(s, MethodSig(head.0, head.1, head.2, ret, ps, vs), rest)
    decreases limit - depth, 3
  {
    hide PU, PParam, PSplit, SpellsU, SpellsParam, SpellsParams, SpellsVarargs;
    var (count, s1) := PCount(s).value;
    CountSpelled(s);
    ParamSpelled(s1, limit, depth, pinned);
    var (ret, s2) := PParam(s1, limit, depth, pinned).value;
    SplitSpelled(s2, count, false, limit, depth, pinned);
    var ((ps, vs), rest) := PSplit(s2, count, false, limit, depth, pinned).value;
    var s3 :| SpellsParams(s2, ps, s3) && SpellsVarargs(s3, vs, rest);
    assert SpellsU(s, |ps| + |vs|, s1);
  }

  // How what is no spelling is refused.

  /** The bytes a type can start with: element types that stand for a type, modifiers, and `PINNED`. */
  function TypeStarts(): set<nat> {
    {0x01, 0x02, 0x03, 0x04, 0x05, 0x06, 0x07, 0x08, 0x09, 0x0A, 0x0B, 0x0C, 0x0D, 0x0E, 0x0F, 0x10, 0x11, 0x12, 0x13,
     0x14, 0x15, 0x16, 0x18, 0x19, 0x1B, 0x1C, 0x1D, 0x1E, 0x1F, 0x20, 0x45}
  }

  /** A type that starts with another byte is malformed, or unsupported if that is `INTERNAL`; so is a second `PINNED`. */
  lemma {:induction false} FirstByteRefused(s: seq<byte>, limit: nat, depth: nat, pinned: bool)
    requires depth < limit && s != []
    ensures s[0] !in TypeStarts() ==> PType(s, limit, depth, pinned) == Err(if s[0] == 0x21 then Unsupported else Malformed)
    ensures s[0] == 0x45 && pinned ==> PType(s, limit, depth, pinned) == Err(Malformed)
    ensures PType([], limit, depth, pinned) == Err(Truncated)
  {
    if s[0] !in TypeStarts() || s[0] == PINNED {
      BodyNext(s, s[0], limit, depth + 1, pinned);
    }
    assert PTypeInner([], limit, depth + 1, pinned) == Err(Truncated);
  }

  /** A count larger than the bytes left is malformed, before any item is read. */
  lemma CountRefused(s: seq<byte>, n: nat, rest: seq<byte>)
    requires SpellsU(s, n, rest) && n > |rest|
    ensures PCount(s) == Err(Malformed)
  {
    hide PU, SpellsU;
    UExact(s, n, rest);
  }

  /** A rank larger than the bytes left by more than one is malformed. */
  lemma RankRefused(s: seq<byte>, rank: nat, rest: seq<byte>)
    requires SpellsU(s, rank, rest) && rank > |rest| + 1
    ensures PShape(s) == Err(Malformed)
  {
    hide PU, SpellsU;
    UExact(s, rank, rest);
  }

  /** A token's tag may not be 3, and an instantiation is of a value type or a class. */
  lemma TokenRefused(s: seq<byte>, v: nat, rest: seq<byte>)
    requires SpellsU(s, v, rest) && v % 4 == 3
    ensures PToken(s) == Err(Malformed)
  {
    hide PU, SpellsU;
    UExact(s, v, rest);
  }

  lemma InstantiationRefused(s: seq<byte>, limit: nat, depth: nat, pinned: bool)
    requires depth < limit && Head(s, 0x15) && |s| > 1 && s[1] != 0x11 && s[1] != 0x12
    ensures PType(s, limit, depth, pinned) == Err(Malformed)
  {
    BodyNext(s, GENERICINST, limit, depth + 1, pinned);
    assert PByte(s[1..]) == Ok((s[1], s[2..]));
  }

  /** Where a parameter or a local is due and no byte is left, the blob is truncated. */
  lemma NothingLeft(n: nat, past: bool, limit: nat, depth: nat, pinned: bool)
    requires depth <= limit && n > 0
    ensures PParam([], limit, depth, pinned) == Err(Truncated)
    ensures PSplit([], n, past, limit, depth, pinned) == Err(Truncated)
    ensures PLocal([], limit) == Err(Truncated)
  {}

  /** A sentinel behind the first one is malformed. */
  lemma SecondSentinelRefused(s: seq<byte>, n: nat, limit: nat, depth: nat, pinned: bool)
    requires depth <= limit && n > 0 && Head(s, 0x41)
    ensures PSplit(s, n, true, limit, depth, pinned) == Err(Malformed)
  {}

  /** A blob with another convention in its first byte is malformed; an empty one is truncated. */
  lemma ConventionRefused(s: seq<byte>, limit: nat)
    requires s != []
    ensures s[0] % 0x10 != 0x06 ==> PFieldSig(s, limit) == Err(Malformed)
    ensures s[0] % 0x10 != 0x07 ==> PLocalSig(s, limit) == Err(Malformed)
    ensures s[0] % 0x10 != 0x08 ==> PPropertySig(s, limit) == Err(Malformed)
    ensures s[0] % 0x10 != 0x0A ==> PMethodSpec(s, limit) == Err(Malformed)
    ensures s[0] % 0x10 in {0x06, 0x07, 0x08, 0x0A, 0x0C, 0x0D, 0x0E, 0x0F} && s[0] / 0x10 % 2 == 0 && limit > 0 ==>
              PMethodSig(s, limit) == Err(Malformed)
    ensures PFieldSig([], limit) == Err(Truncated) && PLocalSig([], limit) == Err(Truncated)
    ensures PPropertySig([], limit) == Err(Truncated) && PMethodSpec([], limit) == Err(Truncated)
  {
    hide PModsType, PCount, PPropertyBody, PSigBody;
    if s[0] % 0x10 in {0x06, 0x07, 0x08, 0x0A, 0x0C, 0x0D, 0x0E, 0x0F} && s[0] / 0x10 % 2 == 0 && limit > 0 {
      assert ConvOf(s[0] % 0x10, false, 0).None? && !Bit(s[0], 0x10);
      assert PSigHead(s) == Err(Malformed);
      assert PSigInner(s, limit, 1, false) == Err(Malformed);
    }
  }

  // Acceptance is exactly this.

  /** A type parses exactly when it is spelled, canonical and within the limits. */
  lemma {:induction false} TypeExact(s: seq<byte>, t: Type, rest: seq<byte>, limit: nat, depth: nat, pinned: bool)
    requires depth <= limit
    ensures PType(s, limit, depth, pinned) == Ok((t, rest)) <==> SpellsType(s, t, rest) && GoodType(t, limit, depth, pinned)
  {
    hide PType, SpellsType, CanonType, Depth, LongestMods;
    if PType(s, limit, depth, pinned) == Ok((t, rest)) {
      TypeSpelled(s, limit, depth, pinned);
      SoundType(s, limit, depth, pinned);
    }
    if SpellsType(s, t, rest) && GoodType(t, limit, depth, pinned) {
      TypeComplete(s, t, rest, limit, depth, pinned);
    }
  }

  lemma {:induction false} TypeSpecExact(s: seq<byte>, t: Type, rest: seq<byte>, limit: nat)
    ensures PTypeSpec(s, limit) == Ok((t, rest)) <==> SpellsType(s, t, rest) && GoodType(t, limit, 0, false)
    ensures SpellsType(s, t, rest) && CanonType(t, false) && !GoodType(t, limit, 0, false) ==>
              PTypeSpec(s, limit) == Err(RecursionLimit)
  {
    hide PType, SpellsType, CanonType, Depth, LongestMods;
    TypeExact(s, t, rest, limit, 0, false);
    if SpellsType(s, t, rest) && CanonType(t, false) {
      TypeComplete(s, t, rest, limit, 0, false);
    }
  }

  /** A method signature is accepted exactly when it is spelled, canonical and within the limits. */
  lemma {:induction false} MethodSigExact(s: seq<byte>, m: MethodSig, rest: seq<byte>, limit: nat)
    ensures PMethodSig(s, limit) == Ok((m, rest)) <==> SpellsSig(s, m, rest) && GoodSig(m, limit, 0, false)
    ensures SpellsSig(s, m, rest) && CanonSig(m, false) && !GoodSig(m, limit, 0, false) ==>
              PMethodSig(s, limit) == Err(RecursionLimit)
  {
    hide PSig, SpellsSig, CanonSig, DepthSig, LongestModsSig;
    if PSig(s, limit, 0, false) == Ok((m, rest)) {
      SigSpelled(s, limit, 0, false);
      SoundSig(s, limit, 0, false);
    }
    if SpellsSig(s, m, rest) && CanonSig(m, false) {
      SigComplete(s, m, rest, limit, 0, false);
    }
  }

  /** The first byte of the other blobs: a convention in the low four bits. */
  ghost predicate Convention(s: seq<byte>, expected: byte) {
    s != [] && s[0] % 0x10 == expected
  }

  /** A field signature starts with 6; like the other blobs it is accepted exactly when it is spelled. */
  lemma {:induction false} FieldSigExact(s: seq<byte>, f: FieldSig, rest: seq<byte>, limit: nat)
    ensures PFieldSig(s, limit) == Ok((f, rest)) <==>
              && Convention(s, 0x06) && SpellsModsType(s[1..], f.mods, f.type_, rest)
              && |f.mods| <= limit && !f.type_.Modified? && GoodType(f.type_, limit, 0, false)
  {
    hide PModsType, SpellsModsType, CanonType, Depth, LongestMods;
    if PFieldSig(s, limit) == Ok((f, rest)) {
      ModsTypeSpelled(s[1..], limit, 0, false);
      SoundModsType(s[1..], limit, 0, false);
    }
    if Convention(s, 0x06) && SpellsModsType(s[1..], f.mods, f.type_, rest) && !f.type_.Modified? && CanonType(f.type_, false) {
      ModsTypeComplete(s[1..], f.mods, f.type_, rest, limit, 0, false);
    }
  }

  lemma {:induction false} MethodSpecExact(s: seq<byte>, args: seq<Type>, rest: seq<byte>, limit: nat)
    ensures PMethodSpec(s, limit) == Ok((args, rest)) <==>
              Convention(s, 0x0A) && SpellsCountedTypes(s[1..], args, rest) && GoodTypes(args, limit, 0, false)
  {
    hide PU, PTypes, SpellsU, SpellsTypes, CanonTypes, DepthTypes, LongestModsTypes;
    if PMethodSpec(s, limit) == Ok((args, rest)) {
      var (count, s1) := PCount(s[1..]).value;
      CountSpelled(s[1..]);
      TypesSpelled(s1, count, limit, 0, false);
      SoundTypes(s1, count, limit, 0, false);
      assert SpellsU(s[1..], |args|, s1);
    }
    if Convention(s, 0x0A) && SpellsCountedTypes(s[1..], args, rest) && GoodTypes(args, limit, 0, false) {
      var s1 :| SpellsU(s[1..], |args|, s1) && SpellsTypes(s1, args, rest);
      UExact(s[1..], |args|, s1);
      TypesLonger(s1, args, rest);
      TypesComplete(s1, args, rest, limit, 0, false);
    }
  }

  ghost predicate SpellsPropertyBody(s: seq<byte>, ret: Param, ps: seq<Param>, rest: seq<byte>) {
    exists s1, s2 :: SpellsU(s, |ps|, s1) && SpellsParam(s1, ret, s2) && SpellsParams(s2, ps, rest)
  }

  /** A property's `HASTHIS` is bit 5 of its first byte. */
  lemma {:induction false} PropertySigExact(s: seq<byte>, p: PropertySig, rest: seq<byte>, limit: nat)
    ensures PPropertySig(s, limit) == Ok((p, rest)) <==>
              && Convention(s, 0x08) && p.hasThis == (s[0] / 0x20 % 2 == 1)
              && SpellsPropertyBody(s[1..], p.ret, p.params, rest)
              && GoodParam(p.ret, limit, 0, false) && GoodParams(p.params, limit, 0, false)
  {
    hide PPropertyBody, SpellsPropertyBody, GoodParam, GoodParams;
    if s != [] {
      PropertyBodyExact(s[1..], p.ret, p.params, rest, limit);
      if PPropertySig(s, limit) == Ok((p, rest)) {
        assert PPropertyBody(s[1..], limit).value == ((p.ret, p.params), rest);
      }
    }
  }

  lemma PropertyBodyExact(s: seq<byte>, ret: Param, ps: seq<Param>, rest: seq<byte>, limit: nat)
    ensures PPropertyBody(s, limit) == Ok(((ret, ps), rest)) <==>
              SpellsPropertyBody(s, ret, ps, rest) && GoodParam(ret, limit, 0, false) && GoodParams(ps, limit, 0, false)
  {
    hide PU, PParam, PParams, SpellsU, SpellsParam, SpellsParams;
    hide CanonParam, CanonParams, Depth, DepthParams, LongestModsParam, LongestModsParams;
    if PPropertyBody(s, limit) == Ok(((ret, ps), rest)) {
      var (count, s1) := PCount(s).value;
      CountSpelled(s);
      var s2 := PParam(s1, limit, 0, false).value.1;
      ParamSpelled(s1, limit, 0, false);
      SoundParam(s1, limit, 0, false);
      ParamsSpelled(s2, count, limit, 0, false);
      SoundParams(s2, count, limit, 0, false);
      assert SpellsU(s, |ps|, s1);
    }
    if SpellsPropertyBody(s, ret, ps, rest) && GoodParam(ret, limit, 0, false) && GoodParams(ps, limit, 0, false) {
      var s1, s2 :| SpellsU(s, |ps|, s1) && SpellsParam(s1, ret, s2) && SpellsParams(s2, ps, rest);
      UExact(s, |ps|, s1);
      ParamLonger(s1, ret, s2);
      ParamsLonger(s2, ps, rest);
      ParamComplete(s1, ret, s2, limit, 0, false);
      ParamsComplete(s2, ps, rest, limit, 0, false);
    }
  }

  // Locals.

  const BARE_TYPEDBYREF := LocalVar([], false, false, Simple(TypedByRef))

  /** An optional `BYREF` and a type. */
  ghost predicate SpellsByRefType(s: seq<byte>, byRef: bool, t: Type, rest: seq<byte>) {
    (byRef ==> Head(s, 0x10)) && SpellsType(AfterByRef(s, byRef), t, rest)
  }

  /** A `PINNED`, and the modifiers behind it; without one there are none. */
  ghost predicate SpellsPinned(s: seq<byte>, pinned: bool, more: seq<CustomMod>, rest: seq<byte>) {
    if pinned then Head(s, 0x45) && SpellsMods(s[1..], more, rest) else more == [] && s == rest
  }

  /** `TYPEDBYREF` stands alone; any other local may have modifiers on both sides of its `PINNED`. */
  ghost predicate SpellsLocal(s: seq<byte>, l: LocalVar, rest: seq<byte>, limit: nat) {
    if Head(s, 0x16) then l == BARE_TYPEDBYREF && s[1..] == rest
    else
      exists first, more, s1, s2 ::
        && SpellsMods(s, first, s1) && SpellsPinned(s1, l.pinned, more, s2)
        && |first| <= limit && |more| <= limit && l.mods == first + more
        && SpellsByRefType(s2, l.byRef, l.type_, rest)
  }

  ghost predicate SpellsLocals(s: seq<byte>, ls: seq<LocalVar>, rest: seq<byte>, limit: nat)
    decreases ls
  {
    if ls == [] then s == rest
    else exists s1 :: SpellsLocal(s, ls[0], s1, limit) && SpellsLocals(s1, ls[1..], rest, limit)
  }

  /** The pieces of a local that parses: two runs of modifiers, and what is left after each. */
  lemma LocalPieces(s: seq<byte>, limit: nat) returns (first: seq<CustomMod>, s1: seq<byte>, more: seq<CustomMod>, s2: seq<byte>)
    requires PLocal(s, limit).Ok? && s[0] != TYPEDBYREF
    ensures PMods(s, limit) == Ok((first, s1)) && s1 != [] && s2 != []
    ensures if s1[0] == PINNED then PMods(s1[1..], limit) == Ok((more, s2)) else more == [] && s2 == s1
    ensures var tail := PType(AfterByRef(s2, s2[0] == BYREF), limit, 0, false);
            tail.Ok? && PLocal(s, limit) == Ok((LocalVar(first + more, s1[0] == PINNED, s2[0] == BYREF, tail.value.0), tail.value.1))
  {
    hide PMods, PType;
    first, s1 := PMods(s, limit).value.0, PMods(s, limit).value.1;
    more, s2 := [], s1;
    if s1[0] == PINNED {
      more, s2 := PMods(s1[1..], limit).value.0, PMods(s1[1..], limit).value.1;
    }
  }

  lemma LocalSpelled(s: seq<byte>, limit: nat)
    requires PLocal(s, limit).Ok?
    ensures SpellsLocal(s, PLocal(s, limit).value.0, PLocal(s, limit).value.1, limit)
  {
    hide PMods, PType, SpellsMods, SpellsType;
    if s[0] != TYPEDBYREF {
      var first, s1, more, s2 := LocalPieces(s, limit);
      hide PLocal;
      RunSpelled(s, first, s1, limit);
      if s1[0] == PINNED {
        RunSpelled(s1[1..], more, s2, limit);
      }
      var s3 := AfterByRef(s2, s2[0] == BYREF);
      var (t, rest) := PType(s3, limit, 0, false).value;
      TypeSpelled(s3, limit, 0, false);
      assert SpellsPinned(s1, s1[0] == PINNED, more, s2) && SpellsByRefType(s2, s2[0] == BYREF, t, rest);
    }
  }

  lemma RunSpelled(s: seq<byte>, mods: seq<CustomMod>, rest: seq<byte>, limit: nat)
    requires PMods(s, limit) == Ok((mods, rest))
    ensures SpellsMods(s, mods, rest) && |mods| <= limit
  {
    hide PMods, SpellsMods;
    ModsSound(s, limit);
    SoundMods(s, limit);
  }

  lemma LocalComplete(s: seq<byte>, l: LocalVar, rest: seq<byte>, limit: nat)
    requires SpellsLocal(s, l, rest, limit) && GoodLocal(l, limit)
    ensures PLocal(s, limit) == Ok((l, rest))
  {
    hide PMods, PType, SpellsMods, SpellsType, GoodType, CanonType, CanonMods;
    if !Head(s, TYPEDBYREF) {
      var first, more, s1, s2 :| && SpellsMods(s, first, s1) && SpellsPinned(s1, l.pinned, more, s2)
                                 && |first| <= limit && |more| <= limit && l.mods == first + more
                                 && SpellsByRefType(s2, l.byRef, l.type_, rest);
      if l == BARE_TYPEDBYREF {
        NotBare(s, l, first, more, s1, s2, rest);
      }
      var s3 := AfterByRef(s2, l.byRef);
      SpelledHead(s3, l.type_, rest, false);
      TypeExact(s3, l.type_, rest, limit, 0, false);
      if l.pinned {
        ModsComplete(s1[1..], more, s2, limit);
      } else {
        assert first + more == first;
      }
      ModsComplete(s, first, s1, limit);
      StartsWell(s, first, s1);
    }
  }

  /** The bare `TYPEDBYREF` has one spelling. */
  lemma NotBare(s: seq<byte>, l: LocalVar, first: seq<CustomMod>, more: seq<CustomMod>, s1: seq<byte>, s2: seq<byte>, rest: seq<byte>)
    requires l == BARE_TYPEDBYREF && l.mods == first + more
    requires SpellsMods(s, first, s1) && SpellsPinned(s1, l.pinned, more, s2) && SpellsByRefType(s2, l.byRef, l.type_, rest)
    ensures Head(s, TYPEDBYREF)
  {
    assert first == [];
    assert s == s1 == s2;
  }

  lemma StartsWell(s: seq<byte>, mods: seq<CustomMod>, rest: seq<byte>)
    requires SpellsMods(s, mods, rest) && rest != []
    ensures s != []
  {}

  lemma {:induction false} LocalsExact(s: seq<byte>, ls: seq<LocalVar>, rest: seq<byte>, limit: nat)
    ensures PLocals(s, |ls|, limit) == Ok((ls, rest)) <==>
              SpellsLocals(s, ls, rest, limit) && forall l | l in ls :: GoodLocal(l, limit)
    decreases ls
  {
    hide PLocal, SpellsLocal, GoodLocal;
    if ls == [] {
    } else {
      assert forall l :: l in ls <==> l == ls[0] || l in ls[1..];
      if PLocals(s, |ls|, limit) == Ok((ls, rest)) {
        var (l, s1) := PLocal(s, limit).value;
        LocalSpelled(s, limit);
        SoundLocal(s, limit);
        LocalsExact(s1, ls[1..], rest, limit);
        assert ls[1..] == PLocals(s1, |ls| - 1, limit).value.0;
      }
      if SpellsLocals(s, ls, rest, limit) && forall l | l in ls :: GoodLocal(l, limit) {
        var s1 :| SpellsLocal(s, ls[0], s1, limit) && SpellsLocals(s1, ls[1..], rest, limit);
        LocalComplete(s, ls[0], s1, limit);
        LocalsExact(s1, ls[1..], rest, limit);
        assert ls == [ls[0]] + ls[1..];
      }
    }
  }

  lemma {:induction false} LocalsLonger(ls: seq<LocalVar>)
    ensures NodesLocals(ls) >= |ls|
  {
    if ls == [] {
    } else {
      NodesPositive(ls[0].type_);
      LocalsLonger(ls[1..]);
    }
  }

  ghost predicate SpellsCountedLocals(s: seq<byte>, ls: seq<LocalVar>, rest: seq<byte>, limit: nat) {
    exists s1 :: SpellsU(s, |ls|, s1) && SpellsLocals(s1, ls, rest, limit)
  }

  lemma {:induction false} LocalVarSigExact(s: seq<byte>, ls: seq<LocalVar>, rest: seq<byte>, limit: nat)
    ensures PLocalSig(s, limit) == Ok((ls, rest)) <==>
              Convention(s, 0x07) && SpellsCountedLocals(s[1..], ls, rest, limit) && forall l | l in ls :: GoodLocal(l, limit)
  {
    hide PU, PLocals, SpellsU, SpellsLocals, GoodLocal;
    if PLocalSig(s, limit) == Ok((ls, rest)) {
      var (count, s1) := PCount(s[1..]).value;
      CountSpelled(s[1..]);
      SoundLocals(s1, count, limit);
      LocalsExact(s1, ls, rest, limit);
      assert SpellsU(s[1..], |ls|, s1);
    }
    if Convention(s, 0x07) && SpellsCountedLocals(s[1..], ls, rest, limit) && forall l | l in ls :: GoodLocal(l, limit) {
      var s1 :| SpellsU(s[1..], |ls|, s1) && SpellsLocals(s1, ls, rest, limit);
      UExact(s[1..], |ls|, s1);
      LocalsExact(s1, ls, rest, limit);
      SoundLocals(s1, |ls|, limit);
      LocalsLonger(ls);
    }
  }
}
