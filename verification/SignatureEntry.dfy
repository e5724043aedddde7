/**
 * The six entry points of src/signature.rs invert their encodings: `MethodSig`, `FieldSig`,
 * `LocalVarSig`, `PropertySig`, `MethodSpecSig` and `TypeSpecSig::parse_with`.
 */
module SignatureEntry {
  import opened Wrappers
  import opened Bytes
  import opened Compressed
  import opened SignatureAst
  import opened SignatureGrammar
  import opened SignatureRoundTrip
  import opened SignatureSound

  /** Method signatures (II.23.2.1 to II.23.2.3), with the `SENTINEL` split. */
  lemma {:induction false} MethodSigRoundTrip(m: MethodSig, rest: seq<byte>, limit: nat)
    requires CanonSig(m, false)
    ensures PMethodSig(EncSig(m) + rest, limit) == Ok((m, rest))
       <==> DepthSig(m) <= limit && LongestModsSig(m) <= limit && RanksOkSig(m, |rest|)
    ensures RanksOkSig(m, |rest|) && PMethodSig(EncSig(m) + rest, limit).Err? ==>
              PMethodSig(EncSig(m) + rest, limit).error == RecursionLimit
  {
    RtSig(m, rest, limit, 0, false);
  }

  lemma FieldStep(s: seq<byte>, limit: nat)
    ensures var r := PModsType(s, limit, 0, false);
            PFieldSig([0x06] + s, limit) ==
            if r.Err? then Err(r.error) else Ok((FieldSig(r.value.0.0, r.value.0.1), r.value.1))
  {
    assert PConvention([0x06] + s, 0x06) == Ok((0x06, s));
  }

  /** Field signatures (II.23.2.4). */
  lemma {:induction false} FieldSigRoundTrip(f: FieldSig, rest: seq<byte>, limit: nat)
    requires CanonMods(f.mods) && CanonType(f.type_, false) && !f.type_.Modified?
    ensures PFieldSig(EncField(f) + rest, limit) == Ok((f, rest))
       <==> Depth(f.type_) <= limit && |f.mods| <= limit && LongestMods(f.type_) <= limit && RanksOk(f.type_, |rest|)
  {
    hide EncMods, EncType, PModsType, PFieldSig;
    var tail := EncMods(f.mods) + (EncType(f.type_) + rest);
    assert EncField(f) + rest == [0x06] + tail;
    FieldStep(tail, limit);
    RtModsType(f.mods, f.type_, rest, limit, 0, false);
  }

  /** Type specs (II.23.2.14). */
  lemma {:induction false} TypeSpecRoundTrip(t: Type, rest: seq<byte>, limit: nat)
    requires CanonType(t, false)
    ensures PTypeSpec(EncType(t) + rest, limit) == Ok((t, rest))
       <==> Depth(t) <= limit && LongestMods(t) <= limit && RanksOk(t, |rest|)
  {
    RtType(t, rest, limit, 0, false);
  }

  /** Method instantiations (II.23.2.15). */
  lemma {:induction false} MethodSpecRoundTrip(args: seq<Type>, rest: seq<byte>, limit: nat)
    requires |args| <= MAX_COMPRESSED_U32 && CanonTypes(args, false)
    ensures PMethodSpec(EncMethodSpec(args) + rest, limit) == Ok((args, rest))
       <==> DepthTypes(args) <= limit && LongestModsTypes(args) <= limit && RanksOkTypes(args, |rest|)
  {
    hide EncU, PCount, EncTypes, PTypes;
    var b2 := EncTypes(args) + rest;
    var b1 := EncU(|args|) + b2;
    assert EncMethodSpec(args) + rest == [0x0A] + b1;
    assert PConvention([0x0A] + b1, 0x0A) == Ok((0x0A, b1));
    TypesLength(args, false);
    RtCount(|args|, b2);
    RtTypes(args, rest, limit, 0, false);
  }

  lemma {:induction false} RtPropertyBody(ret: Param, params: seq<Param>, rest: seq<byte>, limit: nat)
    requires |params| <= MAX_COMPRESSED_U32 && CanonParam(ret, false) && CanonParams(params, false)
    ensures Outcome(PPropertyBody(EncU(|params|) + (EncParam(ret) + (EncParams(params) + rest)), limit), (ret, params), rest,
                    && Depth(ret.type_) <= limit && DepthParams(params) <= limit
                    && LongestModsParam(ret) <= limit && LongestModsParams(params) <= limit,
                    RanksOk(ret.type_, |EncParams(params)| + |rest|) && RanksOkParams(params, |rest|))
  {
    hide EncU, PCount, EncParam, PParam, EncParams, PParams, RanksOk, RanksOkParams, Depth, DepthParams, LongestModsParam, LongestModsParams;
    var b3 := EncParams(params) + rest;
    var b2 := EncParam(ret) + b3;
    ParamsLength(params, false);
    RtCount(|params|, b2);
    RtParam(ret, b3, limit, 0, false);
    RtParams(params, rest, limit, 0, false);
  }

  lemma PropertyHead(hasThis: bool, body: seq<byte>)
    ensures var head := if hasThis then 0x28 else 0x08;
            PConvention([head] + body, 0x08) == Ok((head, body)) && Bit(head, 0x20) == hasThis
  {}

  /** Property signatures (II.23.2.5). */
  lemma {:induction false} PropertySigRoundTrip(p: PropertySig, rest: seq<byte>, limit: nat)
    requires |p.params| <= MAX_COMPRESSED_U32 && CanonParam(p.ret, false) && CanonParams(p.params, false)
    ensures PPropertySig(EncProperty(p) + rest, limit) == Ok((p, rest))
       <==> && Depth(p.ret.type_) <= limit && DepthParams(p.params) <= limit
            && LongestModsParam(p.ret) <= limit && LongestModsParams(p.params) <= limit
            && RanksOk(p.ret.type_, |EncParams(p.params)| + |rest|) && RanksOkParams(p.params, |rest|)
  {
    hide EncU, EncParam, EncParams, PPropertyBody, PConvention, Bit;
    var head := if p.hasThis then 0x28 else 0x08;
    var body := EncU(|p.params|) + (EncParam(p.ret) + (EncParams(p.params) + rest));
    assert EncProperty(p) + rest == [head] + body;
    PropertyHead(p.hasThis, body);
    RtPropertyBody(p.ret, p.params, rest, limit);
  }

  // Local variables (II.23.2.6).

  lemma {:induction false} EncModsConcat(a: seq<CustomMod>, b: seq<CustomMod>)
    ensures EncMods(a) + EncMods(b) == EncMods(a + b)
  {
    hide EncToken;
    if a == [] {
      assert a + b == b;
    } else {
      var head := [if a[0].required then CMOD_REQD else CMOD_OPT] + EncToken(a[0].typeToken);
      assert EncMods(a + b) == head + EncMods(a[1..] + b) by {
        assert (a + b)[0] == a[0] && (a + b)[1..] == a[1..] + b;
      }
      EncModsConcat(a[1..], b);
      assert head + EncMods(a[1..]) + EncMods(b) == head + (EncMods(a[1..]) + EncMods(b));
    }
  }

  /** `TYPEDBYREF` on its own is read before `enter`, so it costs no depth. */
  predicate Bare(l: LocalVar) {
    l == LocalVar([], false, false, Simple(TypedByRef))
  }

  /** The two runs of modifiers around `PINNED` are limited separately; without it they are one run. */
  predicate LocalFits(l: LocalVar, split: nat, limit: nat)
    requires split <= |l.mods|
  {
    Bare(l) || (
      && Depth(l.type_) <= limit && LongestMods(l.type_) <= limit
      && (if l.pinned then split <= limit && |l.mods| - split <= limit else |l.mods| <= limit))
  }

  lemma LocalHead(l: LocalVar, split: nat, rest: seq<byte>)
    requires CanonLocal(l) && split <= |l.mods|
    ensures EncLocal(l, split) != []
    ensures (EncLocal(l, split) + rest)[0] == TYPEDBYREF <==> Bare(l)
  {
    hide EncToken;
    TypeHead(l.type_, false);
    if split > 0 {
      assert l.mods[..split] != [];
    } else {
      assert l.mods[split..] == l.mods;
    }
  }

  /** From the optional `BYREF` on: what the end of `PLocal` makes of `tail`. */
  lemma RtLocalTail(l: LocalVar, rest: seq<byte>, limit: nat)
    requires CanonLocal(l)
    ensures var tail := (if l.byRef then [BYREF] else []) + (EncType(l.type_) + rest);
            && tail != [] && !StartsMod(tail) && (l.byRef <==> tail[0] == BYREF) && tail[0] != PINNED
            && Outcome(PType(if l.byRef then tail[1..] else tail, limit, 0, false), l.type_, rest,
                       Depth(l.type_) <= limit && LongestMods(l.type_) <= limit, RanksOk(l.type_, |rest|))
  {
    hide EncType, PType;
    TypeHead(l.type_, false);
    var body := EncType(l.type_) + rest;
    assert [] + body == body;
    assert ([BYREF] + body)[1..] == body;
    RtType(l.type_, rest, limit, 0, false);
  }

  lemma {:induction false} RtLocal(l: LocalVar, split: nat, rest: seq<byte>, limit: nat)
    requires CanonLocal(l) && split <= |l.mods|
    ensures Outcome(PLocal(EncLocal(l, split) + rest, limit), l, rest, LocalFits(l, split, limit), RanksOk(l.type_, |rest|))
  {
    if Bare(l) {
      RtLocalBare(rest, limit);
      return;
    }
    hide EncLocal, PLocal, LocalFits, Outcome, CanonLocal, RanksOk, Bare;
    if l.pinned {
      RtLocalPinned(l, split, rest, limit);
    } else {
      RtLocalPlain(l, split, rest, limit);
    }
  }

  lemma RtLocalBare(rest: seq<byte>, limit: nat)
    ensures var l := LocalVar([], false, false, Simple(TypedByRef));
            EncLocal(l, 0) + rest == [TYPEDBYREF] + rest && PLocal(EncLocal(l, 0) + rest, limit) == Ok((l, rest))
  {
    hide PMods, PType;
    var l := LocalVar([], false, false, Simple(TypedByRef));
    assert EncLocal(l, 0) == [TYPEDBYREF];
  }

  lemma LocalBytes(l: LocalVar, split: nat, rest: seq<byte>)
    requires split <= |l.mods|
    ensures var tail := (if l.byRef then [BYREF] else []) + (EncType(l.type_) + rest);
            EncLocal(l, split) + rest ==
            if l.pinned then EncMods(l.mods[..split]) + ([PINNED] + (EncMods(l.mods[split..]) + tail))
            else EncMods(l.mods) + tail
  {
    hide EncMods, EncType;
    var first, second := l.mods[..split], l.mods[split..];
    var ref := if l.byRef then [BYREF] else [];
    assert (ref + EncType(l.type_)) + rest == ref + (EncType(l.type_) + rest);
    if !l.pinned {
      EncModsConcat(first, second);
      assert first + second == l.mods;
      assert EncLocal(l, split) == EncMods(l.mods) + (ref + EncType(l.type_));
    }
  }

  lemma RtLocalPlain(l: LocalVar, split: nat, rest: seq<byte>, limit: nat)
    requires CanonLocal(l) && split <= |l.mods| && !l.pinned && !Bare(l)
    ensures Outcome(PLocal(EncLocal(l, split) + rest, limit), l, rest, LocalFits(l, split, limit), RanksOk(l.type_, |rest|))
  {
    hide EncMods, PMods, EncType, PType, EncLocal, PLocal;
    var tail := (if l.byRef then [BYREF] else []) + (EncType(l.type_) + rest);
    LocalBytes(l, split, rest);
    LocalHead(l, split, rest);
    RtLocalTail(l, rest, limit);
    RtMods(l.mods, tail, limit);
    PlainStep(EncMods(l.mods) + tail, l.mods, tail, limit);
  }

  lemma PlainStep(s: seq<byte>, mods: seq<CustomMod>, tail: seq<byte>, limit: nat)
    requires s != [] && s[0] != TYPEDBYREF && tail != [] && tail[0] != PINNED
    ensures PMods(s, limit).Err? ==> PLocal(s, limit) == Err(PMods(s, limit).error)
    ensures PMods(s, limit) == Ok((mods, tail)) ==>
              var r := PType(if tail[0] == BYREF then tail[1..] else tail, limit, 0, false);
              PLocal(s, limit) ==
                if r.Err? then Err(r.error)
                else if r.value.0.Pinned? then Err(Malformed)
                else Ok((LocalVar(mods, false, tail[0] == BYREF, r.value.0), r.value.1))
  {
    hide PMods, PType;
    assert mods + [] == mods;
  }

  lemma RtLocalPinned(l: LocalVar, split: nat, rest: seq<byte>, limit: nat)
    requires CanonLocal(l) && split <= |l.mods| && l.pinned
    ensures Outcome(PLocal(EncLocal(l, split) + rest, limit), l, rest, LocalFits(l, split, limit), RanksOk(l.type_, |rest|))
  {
    hide EncMods, PMods, EncType, PType, EncLocal, PLocal;
    var first, second := l.mods[..split], l.mods[split..];
    assert l.mods == first + second;
    var tail := (if l.byRef then [BYREF] else []) + (EncType(l.type_) + rest);
    var mid := EncMods(second) + tail;
    LocalBytes(l, split, rest);
    LocalHead(l, split, rest);
    RtLocalTail(l, rest, limit);
    RtMods(first, [PINNED] + mid, limit);
    RtMods(second, tail, limit);
    PinnedStep(EncMods(first) + ([PINNED] + mid), first, mid, second, tail, limit);
  }

  lemma PinnedStep(s: seq<byte>, first: seq<CustomMod>, mid: seq<byte>, second: seq<CustomMod>, tail: seq<byte>, limit: nat)
    requires s != [] && s[0] != TYPEDBYREF && tail != []
    ensures PMods(s, limit).Err? ==> PLocal(s, limit) == Err(PMods(s, limit).error)
    ensures PMods(s, limit) == Ok((first, [PINNED] + mid)) && PMods(mid, limit).Err? ==>
              PLocal(s, limit) == Err(PMods(mid, limit).error)
    ensures PMods(s, limit) == Ok((first, [PINNED] + mid)) && PMods(mid, limit) == Ok((second, tail)) ==>
              var r := PType(if tail[0] == BYREF then tail[1..] else tail, limit, 0, false);
              PLocal(s, limit) ==
                if r.Err? then Err(r.error)
                else if r.value.0.Pinned? then Err(Malformed)
                else Ok((LocalVar(first + second, true, tail[0] == BYREF, r.value.0), r.value.1))
  {
    hide PMods, PType;
    assert ([PINNED] + mid)[1..] == mid;
  }

  predicate CanonLocals(ls: seq<LocalVar>, splits: seq<nat>) {
    && |splits| == |ls|
    && forall i | 0 <= i < |ls| :: CanonLocal(ls[i]) && splits[i] <= |ls[i].mods|
  }

  predicate LocalsFit(ls: seq<LocalVar>, splits: seq<nat>, limit: nat)
    requires CanonLocals(ls, splits)
  {
    forall i | 0 <= i < |ls| :: LocalFits(ls[i], splits[i], limit)
  }

  predicate LocalsRanksOk(ls: seq<LocalVar>, splits: seq<nat>, after: nat)
    requires CanonLocals(ls, splits)
  {
    ls == [] || (
      && RanksOk(ls[0].type_, |EncLocals(ls[1..], splits[1..])| + after)
      && LocalsRanksOk(ls[1..], splits[1..], after))
  }

  lemma {:induction false} RtLocals(ls: seq<LocalVar>, splits: seq<nat>, rest: seq<byte>, limit: nat)
    requires CanonLocals(ls, splits)
    ensures |EncLocals(ls, splits)| >= |ls|
    ensures Outcome(PLocals(EncLocals(ls, splits) + rest, |ls|, limit), ls, rest,
                    LocalsFit(ls, splits, limit), LocalsRanksOk(ls, splits, |rest|))
  {
    hide EncLocal, PLocal, CanonLocal, LocalFits;
    if ls == [] {
      assert EncLocals(ls, splits) + rest == rest;
    } else {
      var tail := EncLocals(ls[1..], splits[1..]) + rest;
      assert EncLocals(ls, splits) + rest == EncLocal(ls[0], splits[0]) + tail;
      LocalHead(ls[0], splits[0], tail);
      RtLocal(ls[0], splits[0], tail, limit);
      RtLocals(ls[1..], splits[1..], rest, limit);
      assert ls == [ls[0]] + ls[1..];
      assert LocalsFit(ls, splits, limit) <==> LocalFits(ls[0], splits[0], limit) && LocalsFit(ls[1..], splits[1..], limit) by {
        if LocalFits(ls[0], splits[0], limit) && LocalsFit(ls[1..], splits[1..], limit) {
          forall i | 0 <= i < |ls| ensures LocalFits(ls[i], splits[i], limit) {
            if i > 0 {
              assert ls[i] == ls[1..][i - 1] && splits[i] == splits[1..][i - 1];
            }
          }
        }
        if LocalsFit(ls, splits, limit) {
          forall i | 0 <= i < |ls[1..]| ensures LocalFits(ls[1..][i], splits[1..][i], limit) {
            assert ls[1..][i] == ls[i + 1] && splits[1..][i] == splits[i + 1];
          }
        }
      }
    }
  }

  /**
   * Local signatures, wherever each local's modifiers are split around its `PINNED`: the two
   * runs come back as one list.
   */
  lemma {:induction false} LocalVarSigRoundTrip(ls: seq<LocalVar>, splits: seq<nat>, rest: seq<byte>, limit: nat)
    requires CanonLocals(ls, splits) && |ls| <= MAX_COMPRESSED_U32
    ensures PLocalSig(EncLocalSig(ls, splits) + rest, limit) == Ok((ls, rest))
       <==> LocalsFit(ls, splits, limit) && LocalsRanksOk(ls, splits, |rest|)
  {
    hide EncU, PCount, EncLocals, PLocals;
    var b2 := EncLocals(ls, splits) + rest;
    var b1 := EncU(|ls|) + b2;
    assert EncLocalSig(ls, splits) + rest == [0x07] + b1;
    assert PConvention([0x07] + b1, 0x07) == Ok((0x07, b1));
    RtLocals(ls, splits, rest, limit);
    RtCount(|ls|, b2);
  }

  // The rank guard in practice.

  /** Every array rank in a type is at most its sizes plus its lower bounds plus three. */
  predicate ModestRanks(t: Type)
    decreases t
  {
    match t
    case Ptr(_, inner) => ModestRanks(inner)
    case ByRef(inner) => ModestRanks(inner)
    case Array(element, shape) => ModestRanks(element) && shape.rank <= |shape.sizes| + |shape.loBounds| + 3
    case SzArray(_, inner) => ModestRanks(inner)
    case GenericInst(_, _, args) => ModestRanksTypes(args)
    case FnPtr(sig) => ModestRanksSig(sig)
    case Modified(_, inner) => ModestRanks(inner)
    case Pinned(inner) => ModestRanks(inner)
    case _ => true
  }

  predicate ModestRanksTypes(ts: seq<Type>)
    decreases ts
  {
    ts == [] || (ModestRanks(ts[0]) && ModestRanksTypes(ts[1..]))
  }

  predicate ModestRanksParams(ps: seq<Param>)
    decreases ps
  {
    ps == [] || (ModestRanks(ps[0].type_) && ModestRanksParams(ps[1..]))
  }

  predicate ModestRanksSig(m: MethodSig)
    decreases m
  {
    ModestRanks(m.ret.type_) && ModestRanksParams(m.params) && ModestRanksParams(m.varargs)
  }

  lemma ModestRankPasses(shape: ArrayShape, after: nat)
    requires CanonShape(shape) && shape.rank <= |shape.sizes| + |shape.loBounds| + 3
    ensures shape.rank <= |EncBounds(shape)| + after + 1
  {
    RtUs(shape.sizes, []);
    RtIs(shape.loBounds, []);
  }

  /** Modest ranks pass the guard wherever the type is placed in a blob. */
  lemma {:induction false} ModestRanksPass(t: Type, pinned: bool, after: nat)
    requires CanonType(t, pinned) && ModestRanks(t)
    ensures RanksOk(t, after)
    decreases t
  {
    hide EncU, EncBounds, CanonShape, CanonMods, TokenTag;
    match t
    case Ptr(_, inner) => ModestRanksPass(inner, pinned, after);
    case ByRef(inner) => ModestRanksPass(inner, pinned, after);
    case Array(element, shape) =>
      ModestRanksPass(element, pinned, |EncU(shape.rank) + EncBounds(shape)| + after);
      ModestRankPasses(shape, after);
    case SzArray(_, inner) => ModestRanksPass(inner, pinned, after);
    case GenericInst(_, _, args) => ModestRanksPassTypes(args, pinned, after);
    case FnPtr(sig) => ModestRanksPassSig(sig, pinned, after);
    case Modified(_, inner) => ModestRanksPass(inner, pinned, after);
    case Pinned(inner) => ModestRanksPass(inner, true, after);
    case _ =>
  }

  lemma {:induction false} ModestRanksPassTypes(ts: seq<Type>, pinned: bool, after: nat)
    requires CanonTypes(ts, pinned) && ModestRanksTypes(ts)
    ensures RanksOkTypes(ts, after)
    decreases ts
  {
    if ts == [] {
    } else {
      ModestRanksPass(ts[0], pinned, |EncTypes(ts[1..])| + after);
      ModestRanksPassTypes(ts[1..], pinned, after);
    }
  }

  lemma {:induction false} ModestRanksPassParams(ps: seq<Param>, pinned: bool, after: nat)
    requires CanonParams(ps, pinned) && ModestRanksParams(ps)
    ensures RanksOkParams(ps, after)
    decreases ps
  {
    if ps == [] {
    } else {
      ModestRanksPass(ps[0].type_, pinned, |EncParams(ps[1..])| + after);
      ModestRanksPassParams(ps[1..], pinned, after);
    }
  }

  lemma {:induction false} ModestRanksPassSig(m: MethodSig, pinned: bool, after: nat)
    requires CanonSig(m, pinned) && ModestRanksSig(m)
    ensures RanksOkSig(m, after)
    decreases m
  {
    ModestRanksPass(m.ret.type_, pinned, |EncParams(m.params) + EncVarargs(m.varargs)| + after);
    ModestRanksPassParams(m.params, pinned, |EncVarargs(m.varargs)| + after);
    ModestRanksPassParams(m.varargs, pinned, after);
  }

  /**
   * Writing a parsed method signature back, in the canonical spelling, and parsing that gives the
   * same tree, at the same limit, if and only if its array ranks pass the guard with no byte after
   * the signature. The canonical spelling may be shorter than the one that was read.
   */
  lemma {:induction false} ReparseMethodSig(s: seq<byte>, limit: nat)
    requires PMethodSig(s, limit).Ok?
    ensures var m := PMethodSig(s, limit).value.0;
            PMethodSig(EncSig(m), limit) == Ok((m, [])) <==> RanksOkSig(m, 0)
  {
    hide PMethodSig, EncSig, CanonSig, RanksOkSig, DepthSig, LongestModsSig;
    var m := PMethodSig(s, limit).value.0;
    MethodSigSound(s, limit);
    MethodSigRoundTrip(m, [], limit);
    assert EncSig(m) + [] == EncSig(m);
  }

  /** The same for types and for fields. */
  lemma {:induction false} ReparseTypeSpec(s: seq<byte>, limit: nat)
    requires PTypeSpec(s, limit).Ok?
    ensures var t := PTypeSpec(s, limit).value.0;
            PTypeSpec(EncType(t), limit) == Ok((t, [])) <==> RanksOk(t, 0)
  {
    hide PTypeSpec, EncType, CanonType, RanksOk, Depth, LongestMods;
    var t := PTypeSpec(s, limit).value.0;
    TypeSpecSound(s, limit);
    TypeSpecRoundTrip(t, [], limit);
    assert EncType(t) + [] == EncType(t);
  }

  lemma {:induction false} ReparseFieldSig(s: seq<byte>, limit: nat)
    requires PFieldSig(s, limit).Ok?
    ensures var f := PFieldSig(s, limit).value.0;
            PFieldSig(EncField(f), limit) == Ok((f, [])) <==> RanksOk(f.type_, 0)
  {
    hide PFieldSig, EncField, CanonType, RanksOk, Depth, LongestMods;
    var f := PFieldSig(s, limit).value.0;
    FieldSigSound(s, limit);
    FieldSigRoundTrip(f, [], limit);
    assert EncField(f) + [] == EncField(f);
  }

  /** A signature without parameters is two zero bytes and its return type. */
  lemma NoParameters(body: seq<byte>, limit: nat)
    requires 0 < limit && PType(body, limit, 1, false).Ok? && !StartsMod(body) && body != [] && body[0] != BYREF
    ensures var (t, rest) := PType(body, limit, 1, false).value;
            PMethodSig([0x00, 0x00] + body, limit) == Ok((MethodSig(Default, false, false, Param([], false, t), [], []), rest))
  {
    hide PType;
    var s := [0x00, 0x00] + body;
    assert s[1..] == [0x00] + body;
    assert PSigHead(s) == Ok(((Default, false, false), [0x00] + body));
    hide PSigHead;
    assert PCount([0x00] + body) == Ok((0, body)) by {
      assert ([0x00] + body)[1..] == body;
    }
    hide PCount;
    var (t, rest) := PType(body, limit, 1, false).value;
    assert PParam(body, limit, 1, false) == Ok((Param([], false, t), rest)) by {
      assert PMods(body, limit) == Ok(([], body));
    }
    hide PParam;
    assert PSplit(rest, 0, false, limit, 1, false) == Ok((([], []), rest));
    hide PSplit;
    assert PSigBody([0x00] + body, limit, 1, false) == Ok(((Param([], false, t), ([], [])), rest));
    hide PSigBody;
    assert PSigInner(s, limit, 1, false) == Ok((MethodSig(Default, false, false, Param([], false, t), [], []), rest));
  }

  lemma ArrayOfInts(tail: seq<byte>, limit: nat)
    requires 3 <= limit && PShape(tail).Ok?
    ensures PType([0x14, 0x08] + tail, limit, 1, false) == Ok((Array(Simple(I4), PShape(tail).value.0), PShape(tail).value.1))
  {
    hide PShape;
    assert [0x14, 0x08] + tail == [ARRAY] + ([0x08] + tail);
    InnerStep(ARRAY, [0x08] + tail, limit, 2, false);
    InnerStep(0x08, tail, limit, 3, false);
    assert PType([0x08] + tail, limit, 2, false) == Ok((Simple(I4), tail));
    ArrayStep([0x08] + tail, limit, 2, false);
  }

  lemma LongZeroShape()
    ensures PShape([0x05, 0xC0, 0x00, 0x00, 0x00, 0x00]) == Ok((ArrayShape(5, [], []), []))
  {
    assert PU([0x05, 0xC0, 0x00, 0x00, 0x00, 0x00]) == Ok((5, [0xC0, 0x00, 0x00, 0x00, 0x00]));
    assert PCount([0xC0, 0x00, 0x00, 0x00, 0x00]) == Ok((0, [0x00]));
    assert PCount([0x00]) == Ok((0, []));
    hide PU, PCount;
  }

  const RANK_FIVE := MethodSig(Default, false, false, Param([], false, Array(Simple(I4), ArrayShape(5, [], []))), [], [])

  lemma BareArrayBytes(t: Type, rank: nat)
    requires t == Array(Simple(I4), ArrayShape(rank, [], [])) && rank < 0x80
    ensures EncType(t) == [0x14, 0x08, rank, 0x00, 0x00] && CanonType(t, false) && (RanksOk(t, 0) <==> rank <= 3)
  {
    assert EncType(t.element) == [0x08];
    assert EncBounds(t.shape) == [0x00, 0x00];
    assert EncU(rank) == [rank];
  }

  lemma NoParametersBytes(m: MethodSig)
    requires m.conv == Default && !m.hasThis && !m.explicitThis && m.params == [] && m.varargs == []
    requires m.ret.mods == [] && !m.ret.byRef && !m.ret.type_.Modified? && !m.ret.type_.ByRef? && CanonType(m.ret.type_, false)
    ensures EncSig(m) == [0x00, 0x00] + EncType(m.ret.type_)
    ensures CanonSig(m, false) && (RanksOkSig(m, 0) <==> RanksOk(m.ret.type_, 0))
  {
    hide EncType, CanonType, RanksOk;
    assert EncParam(m.ret) == EncType(m.ret.type_);
    assert EncSigBody(m) == [0x00] + EncType(m.ret.type_);
  }

  lemma RankFiveBytes()
    ensures EncSig(RANK_FIVE) == [0x00, 0x00, 0x14, 0x08, 0x05, 0x00, 0x00]
    ensures CanonSig(RANK_FIVE, false) && !RanksOkSig(RANK_FIVE, 0)
  {
    hide EncSig, CanonSig, RanksOkSig, EncType, CanonType, RanksOk;
    BareArrayBytes(RANK_FIVE.ret.type_, 5);
    NoParametersBytes(RANK_FIVE);
  }

  /**
   * A signature that parses and whose canonical rewrite does not: rank 5, with the zero size count
   * spelled in four bytes, so that the guard sees three bytes more than the rewrite has.
   */
  lemma ReparseFails()
    ensures PMethodSig([0x00, 0x00, 0x14, 0x08, 0x05, 0xC0, 0x00, 0x00, 0x00, 0x00], 64) == Ok((RANK_FIVE, []))
    ensures EncSig(RANK_FIVE) == [0x00, 0x00, 0x14, 0x08, 0x05, 0x00, 0x00] && PMethodSig(EncSig(RANK_FIVE), 64).Err?
  {
    hide PMethodSig, PType, PShape, EncSig, RanksOkSig, CanonSig, PSig;
    var tail := [0x05, 0xC0, 0x00, 0x00, 0x00, 0x00];
    LongZeroShape();
    ArrayOfInts(tail, 64);
    NoParameters([0x14, 0x08] + tail, 64);
    assert [0x00, 0x00] + ([0x14, 0x08] + tail) == [0x00, 0x00, 0x14, 0x08, 0x05, 0xC0, 0x00, 0x00, 0x00, 0x00];
    RankFiveBytes();
    RefusedRewrite(RANK_FIVE, 64);
  }

  lemma RefusedRewrite(m: MethodSig, limit: nat)
    requires CanonSig(m, false) && !RanksOkSig(m, 0)
    ensures PMethodSig(EncSig(m), limit).Err?
  {
    hide PSig, EncSig, CanonSig, RanksOkSig;
    RtSig(m, [], limit, 0, false);
    assert EncSig(m) + [] == EncSig(m);
  }

  /** The guard does bite: a five-dimensional array without sizes or bounds, at the end of a blob. */
  lemma HighRankRejected()
    ensures var t := Array(Simple(I4), ArrayShape(5, [], []));
            CanonType(t, false) && !RanksOk(t, 0) && PTypeSpec(EncType(t), 64) == Err(Malformed)
  {
    var shape := ArrayShape(5, [], []);
    var t := Array(Simple(I4), shape);
    assert EncBounds(shape) == [0, 0];
    RtShape(shape, []);
    var tail := (EncU(5) + EncBounds(shape)) + [];
    assert EncType(t) == [ARRAY] + ([0x08] + tail);
    RtType(Simple(I4), tail, 64, 1, false);
    InnerStep(ARRAY, [0x08] + tail, 64, 1, false);
  }
}
