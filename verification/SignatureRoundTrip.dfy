/**
 * The parser inverts the grammar: parsing the II.23.2 encoding of a canonical tree gives the
 * tree back and leaves exactly what followed, if and only if the tree is within the recursion
 * limit and every array rank passes the rank guard.
 */
module SignatureRoundTrip {
  import opened Wrappers
  import opened Bytes
  import opened Tokens
  import opened Compressed
  import opened SignatureAst
  import opened SignatureGrammar

  // Leaves.

  lemma RtU(v: nat, rest: seq<byte>)
    requires v <= MAX_COMPRESSED_U32
    ensures PU(EncU(v) + rest) == Ok((v, rest))
  {
    ReadEncodeU32(v, rest);
  }

  lemma RtI(v: int, rest: seq<byte>)
    requires -0x1000_0000 <= v < 0x1000_0000
    ensures PI(EncI(v) + rest) == Ok((v, rest))
  {
    ReadEncodeI32(v, rest);
  }

  lemma RtCount(v: nat, rest: seq<byte>)
    requires v <= MAX_COMPRESSED_U32 && v <= |rest|
    ensures PCount(EncU(v) + rest) == Ok((v, rest))
  {
    hide EncU, EncI, PU, PI;
    RtU(v, rest);
  }

  lemma RidFits(t: Token)
    ensures 4 * RidOf(t) + 3 <= MAX_COMPRESSED_U32
  {}

  lemma RtToken(t: Token, rest: seq<byte>)
    requires TokenTag(t).Some?
    ensures PToken(EncToken(t) + rest) == Ok((t, rest))
  {
    hide EncU, PU, NewToken, TableOf, RidOf;
    var tag := TokenTag(t).value;
    var v := 4 * RidOf(t) + tag;
    RidFits(t);
    RtU(v, rest);
    assert v % 4 == tag && v / 4 == RidOf(t);
    TokenRebuild(t);
  }

  lemma {:induction false} RtMods(mods: seq<CustomMod>, rest: seq<byte>, room: nat)
    requires CanonMods(mods) && !StartsMod(rest)
    ensures |mods| <= room ==> PMods(EncMods(mods) + rest, room) == Ok((mods, rest))
    ensures |mods| > room ==> PMods(EncMods(mods) + rest, room) == Err(RecursionLimit)
  {
    hide EncToken, PToken;
    var s := EncMods(mods) + rest;
    if mods == [] {
      assert s == rest;
    } else {
      var tail := EncMods(mods[1..]) + rest;
      assert s[1..] == EncToken(mods[0].typeToken) + tail;
      assert StartsMod(s);
      RtToken(mods[0].typeToken, tail);
      if room > 0 {
        RtMods(mods[1..], rest, room - 1);
        assert mods == [mods[0]] + mods[1..];
      }
    }
  }

  lemma NumbersTakeBytes(v: nat, i: int)
    ensures v <= MAX_COMPRESSED_U32 ==> 1 <= |EncU(v)|
    ensures -0x1000_0000 <= i < 0x1000_0000 ==> 1 <= |EncI(i)|
  {}

  lemma {:induction false} RtUs(vs: seq<nat>, rest: seq<byte>)
    requires forall v | v in vs :: v <= MAX_COMPRESSED_U32
    ensures PUs(EncUs(vs) + rest, |vs|) == Ok((vs, rest)) && |EncUs(vs)| >= |vs|
  {
    hide EncU, EncI, PU, PI;
    if vs == [] {
      assert EncUs(vs) + rest == rest;
    } else {
      assert vs[0] in vs;
      assert EncUs(vs) + rest == EncU(vs[0]) + (EncUs(vs[1..]) + rest);
      NumbersTakeBytes(vs[0], 0);
      RtU(vs[0], EncUs(vs[1..]) + rest);
      assert forall v | v in vs[1..] :: v in vs;
      RtUs(vs[1..], rest);
      assert vs == [vs[0]] + vs[1..];
    }
  }

  lemma {:induction false} RtIs(vs: seq<int>, rest: seq<byte>)
    requires forall v | v in vs :: -0x1000_0000 <= v < 0x1000_0000
    ensures PIs(EncIs(vs) + rest, |vs|) == Ok((vs, rest)) && |EncIs(vs)| >= |vs|
  {
    hide EncU, EncI, PU, PI;
    if vs == [] {
      assert EncIs(vs) + rest == rest;
    } else {
      assert vs[0] in vs;
      assert EncIs(vs) + rest == EncI(vs[0]) + (EncIs(vs[1..]) + rest);
      NumbersTakeBytes(0, vs[0]);
      RtI(vs[0], EncIs(vs[1..]) + rest);
      assert forall v | v in vs[1..] :: v in vs;
      RtIs(vs[1..], rest);
      assert vs == [vs[0]] + vs[1..];
    }
  }

  lemma RtShape(shape: ArrayShape, rest: seq<byte>)
    requires CanonShape(shape)
    ensures shape.rank <= |EncBounds(shape)| + |rest| + 1 ==>
              PShape((EncU(shape.rank) + EncBounds(shape)) + rest) == Ok((shape, rest))
    ensures shape.rank > |EncBounds(shape)| + |rest| + 1 ==>
              PShape((EncU(shape.rank) + EncBounds(shape)) + rest) == Err(Malformed)
  {
    hide EncU, EncI, PU, PI, PCount, PUs, PIs, EncUs, EncIs;
    var b4 := EncIs(shape.loBounds) + rest;
    var b3 := EncU(|shape.loBounds|) + b4;
    var b2 := EncUs(shape.sizes) + b3;
    var b1 := EncU(|shape.sizes|) + b2;
    assert EncBounds(shape) + rest == b1;
    assert (EncU(shape.rank) + EncBounds(shape)) + rest == EncU(shape.rank) + b1;
    RtU(shape.rank, b1);
    RtUs(shape.sizes, b3);
    RtIs(shape.loBounds, rest);
    RtCount(|shape.sizes|, b2);
    RtCount(|shape.loBounds|, b4);
  }

  // The first byte of an encoding decides what the parser does next.

  lemma {:induction false} TypeHead(t: Type, pinned: bool)
    requires CanonType(t, pinned)
    ensures EncType(t) != []
    ensures (EncType(t)[0] == CMOD_REQD || EncType(t)[0] == CMOD_OPT) <==> t.Modified?
    ensures EncType(t)[0] == BYREF <==> t.ByRef?
    ensures EncType(t)[0] == PINNED <==> t.Pinned?
    ensures EncType(t)[0] == TYPEDBYREF <==> t == Simple(TypedByRef)
    ensures EncType(t)[0] != SENTINEL
  {}

  lemma ParamHead(p: Param, pinned: bool)
    requires CanonParam(p, pinned)
    ensures EncParam(p) != [] && EncParam(p)[0] != SENTINEL
  {
    TypeHead(p.type_, pinned);
  }

  lemma {:induction false} ParamsLength(ps: seq<Param>, pinned: bool)
    requires CanonParams(ps, pinned)
    ensures |EncParams(ps)| >= |ps|
  {
    hide EncParam, EncType;
    if ps == [] {
    } else {
      ParamHead(ps[0], pinned);
      ParamsLength(ps[1..], pinned);
    }
  }

  lemma {:induction false} TypesLength(ts: seq<Type>, pinned: bool)
    requires CanonTypes(ts, pinned)
    ensures |EncTypes(ts)| >= |ts|
  {
    hide EncType;
    if ts == [] {
    } else {
      TypeHead(ts[0], pinned);
      TypesLength(ts[1..], pinned);
    }
  }

  /**
   * What parsing the encoding of `x`, followed by `rest`, must give: the value and exactly
   * `rest` when it is within the recursion limit and its ranks pass, an error otherwise, and
   * `RecursionLimit` whenever the ranks are not what is wrong.
   */
  ghost predicate Outcome<T(!new)>(r: Parsed<T>, x: T, rest: seq<byte>, fits: bool, ranks: bool) {
    if fits && ranks then r == Ok((x, rest)) else r.Err? && (ranks ==> r.error == RecursionLimit)
  }

  ghost predicate TypeOutcome(t: Type, rest: seq<byte>, limit: nat, depth: nat, pinned: bool)
    requires depth <= limit
  {
    Outcome(PType(EncType(t) + rest, limit, depth, pinned), t, rest,
            depth + Depth(t) <= limit && LongestMods(t) <= limit, RanksOk(t, |rest|))
  }

  ghost predicate InnerOutcome(t: Type, rest: seq<byte>, limit: nat, depth: nat, pinned: bool)
    requires depth < limit
  {
    Outcome(PTypeInner(EncType(t) + rest, limit, depth + 1, pinned), t, rest,
            depth + Depth(t) <= limit && LongestMods(t) <= limit, RanksOk(t, |rest|))
  }

  lemma InnerStep(b: byte, s: seq<byte>, limit: nat, depth: nat, pinned: bool)
    requires depth <= limit && b != CMOD_REQD && b != CMOD_OPT
    ensures PTypeInner([b] + s, limit, depth, pinned) == PTypeBody(b, s, limit, depth, pinned)
  {
    assert PMods([b] + s, limit) == Ok(([], [b] + s));
    assert PByte([b] + s) == Ok((b, s));
  }

  // Types.

  lemma {:induction false} RtType(t: Type, rest: seq<byte>, limit: nat, depth: nat, pinned: bool)
    requires depth <= limit && CanonType(t, pinned)
    ensures TypeOutcome(t, rest, limit, depth, pinned)
    decreases t, 2
  {
    hide EncType, PTypeInner, LongestMods, RanksOk;
    if depth < limit {
      match t
      case Simple(_) => RtLeaf(t, rest, limit, depth, pinned);
      case Ptr(_, _) => RtPtr(t, rest, limit, depth, pinned);
      case SzArray(_, _) => RtSzArray(t, rest, limit, depth, pinned);
      case ByRef(_) => RtWrapper(t, rest, limit, depth, pinned);
      case Pinned(_) => RtWrapper(t, rest, limit, depth, pinned);
      case ValueType(_) => RtLeaf(t, rest, limit, depth, pinned);
      case Class(_) => RtLeaf(t, rest, limit, depth, pinned);
      case Var(_) => RtLeaf(t, rest, limit, depth, pinned);
      case MVar(_) => RtLeaf(t, rest, limit, depth, pinned);
      case Array(_, _) => RtArray(t, rest, limit, depth, pinned);
      case GenericInst(_, _, _) => RtGenericInst(t, rest, limit, depth, pinned);
      case FnPtr(_) => RtFnPtr(t, rest, limit, depth, pinned);
      case Modified(_, _) => RtModified(t, rest, limit, depth, pinned);
    }
  }

  lemma RtLeaf(t: Type, rest: seq<byte>, limit: nat, depth: nat, pinned: bool)
    requires depth < limit && CanonType(t, pinned)
    requires t.Simple? || t.ValueType? || t.Class? || t.Var? || t.MVar?
    ensures InnerOutcome(t, rest, limit, depth, pinned)
  {
    hide EncU, EncToken, PU, PToken, PCount, PShape, PModsType, PTypes, PSig;
    var head, tail := EncType(t)[0], EncType(t)[1..] + rest;
    assert EncType(t) + rest == [head] + tail;
    InnerStep(head, tail, limit, depth + 1, pinned);
    if t.ValueType? || t.Class? {
      RtToken(t.token, rest);
    } else if t.Var? || t.MVar? {
      RtU(t.index, rest);
    }
  }

  lemma {:induction false} RtFnPtr(t: Type, rest: seq<byte>, limit: nat, depth: nat, pinned: bool)
    requires depth < limit && CanonType(t, pinned) && t.FnPtr?
    ensures InnerOutcome(t, rest, limit, depth, pinned)
    decreases t, 0
  {
    hide EncSig, PSig;
    assert EncType(t) + rest == [FNPTR] + (EncSig(t.sig) + rest);
    InnerStep(FNPTR, EncSig(t.sig) + rest, limit, depth + 1, pinned);
    RtSig(t.sig, rest, limit, depth + 1, pinned);
  }

  lemma {:induction false} RtWrapper(t: Type, rest: seq<byte>, limit: nat, depth: nat, pinned: bool)
    requires depth < limit && CanonType(t, pinned) && (t.ByRef? || t.Pinned?)
    ensures InnerOutcome(t, rest, limit, depth, pinned)
    decreases t, 0
  {
    hide EncU, EncToken, PU, PToken, PCount, PShape, PModsType, PTypes, PSig, PTypeInner;
    var head := if t.ByRef? then BYREF else PINNED;
    assert EncType(t) + rest == [head] + (EncType(t.inner) + rest);
    InnerStep(head, EncType(t.inner) + rest, limit, depth + 1, pinned);
    RtType(t.inner, rest, limit, depth + 1, pinned || t.Pinned?);
  }

  lemma {:induction false} RtModsType(mods: seq<CustomMod>, inner: Type, rest: seq<byte>, limit: nat, depth: nat, pinned: bool)
    requires depth <= limit && CanonMods(mods) && !inner.Modified? && CanonType(inner, pinned)
    ensures Outcome(PModsType(EncMods(mods) + (EncType(inner) + rest), limit, depth, pinned), (mods, inner), rest,
                    && depth + Depth(inner) <= limit
                    && |mods| <= limit && LongestMods(inner) <= limit,
                    RanksOk(inner, |rest|))
    decreases inner, 3
  {
    hide EncMods, PMods, EncType;
    TypeHead(inner, pinned);
    RtMods(mods, EncType(inner) + rest, limit);
    RtType(inner, rest, limit, depth, pinned);
  }

  lemma {:induction false} RtPtr(t: Type, rest: seq<byte>, limit: nat, depth: nat, pinned: bool)
    requires depth < limit && CanonType(t, pinned) && t.Ptr?
    ensures InnerOutcome(t, rest, limit, depth, pinned)
    decreases t, 0
  {
    hide EncMods, PModsType;
    var s := EncMods(t.mods) + (EncType(t.inner) + rest);
    assert EncType(t) + rest == [PTR] + s;
    InnerStep(PTR, s, limit, depth + 1, pinned);
    RtModsType(t.mods, t.inner, rest, limit, depth + 1, pinned);
  }

  lemma {:induction false} RtSzArray(t: Type, rest: seq<byte>, limit: nat, depth: nat, pinned: bool)
    requires depth < limit && CanonType(t, pinned) && t.SzArray?
    ensures InnerOutcome(t, rest, limit, depth, pinned)
    decreases t, 0
  {
    hide EncMods, PModsType;
    var s := EncMods(t.mods) + (EncType(t.inner) + rest);
    assert EncType(t) + rest == [SZARRAY] + s;
    InnerStep(SZARRAY, s, limit, depth + 1, pinned);
    RtModsType(t.mods, t.inner, rest, limit, depth + 1, pinned);
  }

  lemma {:induction false} RtModified(t: Type, rest: seq<byte>, limit: nat, depth: nat, pinned: bool)
    requires depth < limit && CanonType(t, pinned) && t.Modified?
    ensures InnerOutcome(t, rest, limit, depth, pinned)
    decreases t, 0
  {
    hide EncMods, PMods;
    var tail := EncType(t.inner) + rest;
    assert EncType(t) + rest == EncMods(t.mods) + tail;
    TypeHead(t.inner, pinned);
    RtMods(t.mods, tail, limit);
    RtType(t.inner, rest, limit, depth + 1, pinned);
  }

  lemma ArrayStep(s: seq<byte>, limit: nat, depth: nat, pinned: bool)
    requires depth <= limit
    ensures var r := PType(s, limit, depth, pinned);
            PTypeBody(ARRAY, s, limit, depth, pinned) ==
            if r.Err? then Err(r.error)
            else
              var q := PShape(r.value.1);
              if q.Err? then Err(q.error) else Ok((Array(r.value.0, q.value.0), q.value.1))
  {
    hide PShape, PType;
  }

  /** The element's outcome and the shape's make the array's. */
  lemma ArrayOutcome(r: Parsed<Type>, body: Parsed<Type>, t: Type, tail: seq<byte>, rest: seq<byte>, fits: bool, ranks: bool, guard: bool)
    requires t.Array? && Outcome(r, t.element, tail, fits, ranks)
    requires PShape(tail) == if guard then Ok((t.shape, rest)) else Err(Malformed)
    requires body ==
             if r.Err? then Err(r.error)
             else
               var q := PShape(r.value.1);
               if q.Err? then Err(q.error) else Ok((Array(r.value.0, q.value.0), q.value.1))
    ensures Outcome(body, t, rest, fits, ranks && guard)
  {
    hide PShape;
  }

  lemma ArrayMeasures(t: Type, after: nat)
    requires t.Array?
    ensures Depth(t) == 1 + Depth(t.element) && LongestMods(t) == LongestMods(t.element)
    ensures RanksOk(t, after) <==>
              && RanksOk(t.element, |EncU(t.shape.rank) + EncBounds(t.shape)| + after)
              && t.shape.rank <= |EncBounds(t.shape)| + after + 1
  {
    hide EncU, EncBounds;
  }

  lemma {:induction false} RtArray(t: Type, rest: seq<byte>, limit: nat, depth: nat, pinned: bool)
    requires depth < limit && CanonType(t, pinned) && t.Array?
    ensures InnerOutcome(t, rest, limit, depth, pinned)
    decreases t, 0
  {
    hide EncU, EncBounds, PShape, PType, PTypeBody, PTypeInner, CanonShape, Outcome, RanksOk, Depth, LongestMods;
    var bounds := EncU(t.shape.rank) + EncBounds(t.shape);
    var tail := bounds + rest;
    assert EncType(t) + rest == [ARRAY] + (EncType(t.element) + tail);
    hide EncType;
    InnerStep(ARRAY, EncType(t.element) + tail, limit, depth + 1, pinned);
    ArrayStep(EncType(t.element) + tail, limit, depth + 1, pinned);
    RtType(t.element, tail, limit, depth + 1, pinned);
    assert |tail| == |bounds| + |rest|;
    RtShape(t.shape, rest);
    ArrayMeasures(t, |rest|);
    ArrayOutcome(PType(EncType(t.element) + tail, limit, depth + 1, pinned), PTypeInner(EncType(t) + rest, limit, depth + 1, pinned),
                 t, tail, rest, depth + 1 + Depth(t.element) <= limit && LongestMods(t.element) <= limit,
                 RanksOk(t.element, |tail|), t.shape.rank <= |EncBounds(t.shape)| + |rest| + 1);
  }

  lemma {:induction false} RtGenericInst(t: Type, rest: seq<byte>, limit: nat, depth: nat, pinned: bool)
    requires depth < limit && CanonType(t, pinned) && t.GenericInst?
    ensures InnerOutcome(t, rest, limit, depth, pinned)
    decreases t, 0
  {
    hide EncU, EncToken, PToken, PCount, PTypes, EncTypes;
    var kind := if t.isValueType then VALUETYPE else CLASS;
    var b3 := EncTypes(t.args) + rest;
    var b2 := EncU(|t.args|) + b3;
    var b1 := EncToken(t.def) + b2;
    assert EncType(t) + rest == [GENERICINST] + ([kind] + b1);
    InnerStep(GENERICINST, [kind] + b1, limit, depth + 1, pinned);
    RtToken(t.def, b2);
    TypesLength(t.args, pinned);
    RtCount(|t.args|, b3);
    RtTypes(t.args, rest, limit, depth + 1, pinned);
  }

  lemma {:induction false} RtTypes(ts: seq<Type>, rest: seq<byte>, limit: nat, depth: nat, pinned: bool)
    requires depth <= limit && CanonTypes(ts, pinned)
    ensures Outcome(PTypes(EncTypes(ts) + rest, |ts|, limit, depth, pinned), ts, rest,
                    depth + DepthTypes(ts) <= limit && LongestModsTypes(ts) <= limit, RanksOkTypes(ts, |rest|))
    decreases ts
  {
    hide EncType, PType;
    if ts == [] {
      assert EncTypes(ts) + rest == rest;
    } else {
      var tail := EncTypes(ts[1..]) + rest;
      assert EncTypes(ts) + rest == EncType(ts[0]) + tail;
      RtType(ts[0], tail, limit, depth, pinned);
      RtTypes(ts[1..], rest, limit, depth, pinned);
      assert ts == [ts[0]] + ts[1..];
    }
  }

  // Parameters and method signatures.

  lemma {:induction false} RtParam(p: Param, rest: seq<byte>, limit: nat, depth: nat, pinned: bool)
    requires depth <= limit && CanonParam(p, pinned)
    ensures Outcome(PParam(EncParam(p) + rest, limit, depth, pinned), p, rest,
                    depth + Depth(p.type_) <= limit && LongestModsParam(p) <= limit, RanksOk(p.type_, |rest|))
    decreases p
  {
    hide EncMods, PMods, EncType, PType;
    TypeHead(p.type_, pinned);
    var body := EncType(p.type_) + rest;
    var tail := (if p.byRef then [BYREF] else []) + body;
    assert EncParam(p) + rest == EncMods(p.mods) + tail;
    RtMods(p.mods, tail, limit);
    if p.byRef {
      assert tail[1..] == body;
    } else {
      assert tail == body;
    }
    RtType(p.type_, rest, limit, depth, pinned);
  }

  lemma {:induction false} RtParams(ps: seq<Param>, rest: seq<byte>, limit: nat, depth: nat, pinned: bool)
    requires depth <= limit && CanonParams(ps, pinned)
    ensures Outcome(PParams(EncParams(ps) + rest, |ps|, limit, depth, pinned), ps, rest,
                    depth + DepthParams(ps) <= limit && LongestModsParams(ps) <= limit, RanksOkParams(ps, |rest|))
    decreases ps
  {
    hide EncParam, PParam, Depth, LongestModsParam, RanksOk;
    if ps == [] {
      assert EncParams(ps) + rest == rest;
    } else {
      var tail := EncParams(ps[1..]) + rest;
      assert EncParams(ps) + rest == EncParam(ps[0]) + tail;
      RtParam(ps[0], tail, limit, depth, pinned);
      RtParams(ps[1..], rest, limit, depth, pinned);
      assert ps == [ps[0]] + ps[1..];
    }
  }

  /** Past the sentinel, the split loop is the plain parameter loop. */
  lemma {:induction false} RtSplitPast(ps: seq<Param>, rest: seq<byte>, limit: nat, depth: nat, pinned: bool)
    requires depth <= limit && CanonParams(ps, pinned)
    ensures Outcome(PSplit(EncParams(ps) + rest, |ps|, true, limit, depth, pinned), ([], ps), rest,
                    depth + DepthParams(ps) <= limit && LongestModsParams(ps) <= limit, RanksOkParams(ps, |rest|))
    decreases ps
  {
    hide EncParam, PParam, Depth, LongestModsParam, RanksOk;
    if ps == [] {
      assert EncParams(ps) + rest == rest;
    } else {
      var tail := EncParams(ps[1..]) + rest;
      assert EncParams(ps) + rest == EncParam(ps[0]) + tail;
      ParamHead(ps[0], pinned);
      RtParam(ps[0], tail, limit, depth, pinned);
      RtSplitPast(ps[1..], rest, limit, depth, pinned);
      assert ps == [ps[0]] + ps[1..];
    }
  }

  lemma {:induction false} RtSentinel(ps: seq<Param>, rest: seq<byte>, limit: nat, depth: nat, pinned: bool)
    requires depth <= limit && CanonParams(ps, pinned)
    ensures Outcome(PSplit(EncVarargs(ps) + rest, |ps|, false, limit, depth, pinned), ([], ps), rest,
                    depth + DepthParams(ps) <= limit && LongestModsParams(ps) <= limit, RanksOkParams(ps, |rest|))
    decreases ps
  {
    hide EncParam, PParam;
    if ps == [] {
      assert EncVarargs(ps) + rest == rest;
    } else {
      var tail := EncParams(ps[1..]) + rest;
      assert EncVarargs(ps) + rest == [SENTINEL] + (EncParam(ps[0]) + tail);
      RtParam(ps[0], tail, limit, depth, pinned);
      RtSplitPast(ps[1..], rest, limit, depth, pinned);
      assert ps == [ps[0]] + ps[1..];
    }
  }

  /** Before the sentinel, a parameter and the rest of the lists that come out as they should make the lists. */
  lemma SplitOutcome(s: seq<byte>, n: nat, p: Param, tail: seq<byte>, lists: (seq<Param>, seq<Param>), rest: seq<byte>,
                     limit: nat, depth: nat, pinned: bool, fitsP: bool, ranksP: bool, fits: bool, ranks: bool)
    requires depth <= limit && n > 0 && s != [] && s[0] != SENTINEL
    requires Outcome(PParam(s, limit, depth, pinned), p, tail, fitsP, ranksP)
    requires Outcome(PSplit(tail, n - 1, false, limit, depth, pinned), lists, rest, fits, ranks)
    ensures Outcome(PSplit(s, n, false, limit, depth, pinned), ([p] + lists.0, lists.1), rest, fitsP && fits, ranksP && ranks)
  {
    hide PParam;
  }

  lemma {:induction false} RtSplit(ps: seq<Param>, vs: seq<Param>, rest: seq<byte>, limit: nat, depth: nat, pinned: bool)
    requires depth <= limit && CanonParams(ps, pinned)
    requires Outcome(PSplit(EncVarargs(vs) + rest, |vs|, false, limit, depth, pinned), ([], vs), rest,
                     depth + DepthParams(vs) <= limit && LongestModsParams(vs) <= limit, RanksOkParams(vs, |rest|))
    ensures Outcome(PSplit(EncParams(ps) + (EncVarargs(vs) + rest), |ps| + |vs|, false, limit, depth, pinned), (ps, vs), rest,
                    && depth + DepthParams(ps) <= limit && LongestModsParams(ps) <= limit
                    && depth + DepthParams(vs) <= limit && LongestModsParams(vs) <= limit,
                    RanksOkParams(ps, |EncVarargs(vs)| + |rest|) && RanksOkParams(vs, |rest|))
    decreases ps
  {
    hide EncParam, EncVarargs, PParam, PSplit, Outcome, Depth, LongestModsParam, RanksOk;
    if ps == [] {
      assert EncParams(ps) + (EncVarargs(vs) + rest) == EncVarargs(vs) + rest;
    } else {
      var tail := EncParams(ps[1..]) + (EncVarargs(vs) + rest);
      var whole := EncParam(ps[0]) + tail;
      assert EncParams(ps) + (EncVarargs(vs) + rest) == whole;
      ParamHead(ps[0], pinned);
      RtParam(ps[0], tail, limit, depth, pinned);
      RtSplit(ps[1..], vs, rest, limit, depth, pinned);
      SplitOutcome(whole, |ps| + |vs|, ps[0], tail, (ps[1..], vs), rest, limit, depth, pinned,
                   depth + Depth(ps[0].type_) <= limit && LongestModsParam(ps[0]) <= limit, RanksOk(ps[0].type_, |tail|),
                   && depth + DepthParams(ps[1..]) <= limit && LongestModsParams(ps[1..]) <= limit
                   && depth + DepthParams(vs) <= limit && LongestModsParams(vs) <= limit,
                   RanksOkParams(ps[1..], |EncVarargs(vs)| + |rest|) && RanksOkParams(vs, |rest|));
      assert ps == [ps[0]] + ps[1..];
    }
  }

  lemma SigByteParts(m: MethodSig)
    requires CanonConv(m.conv)
    ensures Bit(SigByte(m), 0x10) == m.conv.Generic?
    ensures Bit(SigByte(m), 0x20) == m.hasThis
    ensures Bit(SigByte(m), 0x40) == m.explicitThis
    ensures ConvOf(SigByte(m) % 0x10, m.conv.Generic?, if m.conv.Generic? then m.conv.count else 0) == Some(m.conv)
  {}

  lemma RtSigHead(m: MethodSig, rest: seq<byte>)
    requires CanonConv(m.conv)
    ensures PSigHead([SigByte(m)] + ((if m.conv.Generic? then EncU(m.conv.count) else []) + rest))
         == Ok(((m.conv, m.hasThis, m.explicitThis), rest))
  {
    hide EncU, PU, SigByte, ConvOf;
    SigByteParts(m);
    if m.conv.Generic? {
      RtU(m.conv.count, rest);
    } else {
      assert [] + rest == rest;
    }
  }

  lemma SigMeasures(m: MethodSig, after: nat)
    ensures DepthSig(m) == 1 + Max(Depth(m.ret.type_), Max(DepthParams(m.params), DepthParams(m.varargs)))
    ensures LongestModsSig(m) == Max(LongestModsParam(m.ret), Max(LongestModsParams(m.params), LongestModsParams(m.varargs)))
    ensures RanksOkSig(m, after) <==>
              && RanksOk(m.ret.type_, |EncParams(m.params) + EncVarargs(m.varargs)| + after)
              && RanksOkParams(m.params, |EncVarargs(m.varargs)| + after)
              && RanksOkParams(m.varargs, after)
  {
    hide Max, EncParams, EncVarargs;
  }

  /** A count, a return type and a split list that come out as they should make a signature body. */
  lemma SigBodyOutcome(s: seq<byte>, count: nat, b1: seq<byte>, ret: Param, b2: seq<byte>, lists: (seq<Param>, seq<Param>),
                       rest: seq<byte>, limit: nat, depth: nat, pinned: bool, fitsRet: bool, ranksRet: bool, fits: bool, ranks: bool)
    requires depth <= limit && PCount(s) == Ok((count, b1))
    requires Outcome(PParam(b1, limit, depth, pinned), ret, b2, fitsRet, ranksRet)
    requires Outcome(PSplit(b2, count, false, limit, depth, pinned), lists, rest, fits, ranks)
    ensures Outcome(PSigBody(s, limit, depth, pinned), (ret, lists), rest, fitsRet && fits, ranksRet && ranks)
  {
    hide PCount, PParam, PSplit;
  }

  lemma SigBodyBytes(m: MethodSig, rest: seq<byte>, pinned: bool)
    requires CanonSig(m, pinned)
    ensures var count := |m.params| + |m.varargs|;
            var b2 := EncParams(m.params) + (EncVarargs(m.varargs) + rest);
            && EncSigBody(m) + rest == EncU(count) + (EncParam(m.ret) + b2)
            && PCount(EncSigBody(m) + rest) == Ok((count, EncParam(m.ret) + b2))
  {
    hide EncU, PCount, EncParam, EncParams;
    ParamHead(m.ret, pinned);
    ParamsLength(m.params, pinned);
    ParamsLength(m.varargs, pinned);
    var b1 := EncParam(m.ret) + (EncParams(m.params) + (EncVarargs(m.varargs) + rest));
    RtCount(|m.params| + |m.varargs|, b1);
  }

  lemma {:induction false} RtSigBody(m: MethodSig, rest: seq<byte>, limit: nat, depth: nat, pinned: bool)
    requires depth <= limit && CanonSig(m, pinned)
    ensures Outcome(PSigBody(EncSigBody(m) + rest, limit, depth, pinned), (m.ret, (m.params, m.varargs)), rest,
                    depth + DepthSig(m) <= limit + 1 && LongestModsSig(m) <= limit, RanksOkSig(m, |rest|))
    decreases m, 0
  {
    hide EncParam, EncParams, EncVarargs, EncSigBody, PCount, PParam, PSplit, PSigBody, Outcome;
    hide DepthSig, LongestModsSig, RanksOkSig, Depth, DepthParams, LongestModsParam, LongestModsParams, RanksOk, RanksOkParams;
    var b2 := EncParams(m.params) + (EncVarargs(m.varargs) + rest);
    SigMeasures(m, |rest|);
    SigBodyBytes(m, rest, pinned);
    RtParam(m.ret, b2, limit, depth, pinned);
    RtSentinel(m.varargs, rest, limit, depth, pinned);
    RtSplit(m.params, m.varargs, rest, limit, depth, pinned);
    assert |b2| == |EncParams(m.params) + EncVarargs(m.varargs)| + |rest|;
    SigBodyOutcome(EncSigBody(m) + rest, |m.params| + |m.varargs|, EncParam(m.ret) + b2, m.ret, b2, (m.params, m.varargs),
                   rest, limit, depth, pinned,
                   depth + Depth(m.ret.type_) <= limit && LongestModsParam(m.ret) <= limit, RanksOk(m.ret.type_, |b2|),
                   && depth + DepthParams(m.params) <= limit && LongestModsParams(m.params) <= limit
                   && depth + DepthParams(m.varargs) <= limit && LongestModsParams(m.varargs) <= limit,
                   RanksOkParams(m.params, |EncVarargs(m.varargs)| + |rest|) && RanksOkParams(m.varargs, |rest|));
  }

  lemma {:induction false} RtSig(m: MethodSig, rest: seq<byte>, limit: nat, depth: nat, pinned: bool)
    requires depth <= limit && CanonSig(m, pinned)
    ensures Outcome(PSig(EncSig(m) + rest, limit, depth, pinned), m, rest,
                    depth + DepthSig(m) <= limit && LongestModsSig(m) <= limit, RanksOkSig(m, |rest|))
    decreases m, 1
  {
    hide EncU, SigByte, EncSigBody, PSigHead, PSigBody;
    if depth < limit {
      var body := EncSigBody(m) + rest;
      assert EncSig(m) + rest
          == [SigByte(m)] + ((if m.conv.Generic? then EncU(m.conv.count) else []) + body);
      RtSigHead(m, body);
      RtSigBody(m, rest, limit, depth + 1, pinned);
    }
  }
}
