/**
 * What every successful signature parse guarantees, on any bytes: it consumes a non-empty
 * prefix, returns a canonical tree within the recursion limit, and builds no more nodes than
 * it consumed bytes.
 */
module SignatureSound {
  import opened Wrappers
  import opened Bytes
  import opened Tokens
  import opened Compressed
  import opened SignatureAst
  import opened SignatureGrammar

  /** `r` is what remains of `s` after consuming at least `n` bytes. */
  ghost predicate Ate(s: seq<byte>, r: seq<byte>, n: nat) {
    SuffixOf(r, s) && |r| + n <= |s|
  }

  lemma AteTrans(s: seq<byte>, m: seq<byte>, r: seq<byte>, a: nat, b: nat)
    requires Ate(s, m, a) && Ate(m, r, b)
    ensures Ate(s, r, a + b)
  {
    SuffixTrans(r, m, s);
  }

  lemma SoundU(s: seq<byte>)
    requires PU(s).Ok?
    ensures Ate(s, PU(s).value.1, 1) && PU(s).value.0 <= MAX_COMPRESSED_U32
  {}

  lemma SoundI(s: seq<byte>)
    requires PI(s).Ok?
    ensures Ate(s, PI(s).value.1, 1) && -0x1000_0000 <= PI(s).value.0 < 0x1000_0000
  {}

  lemma SoundCount(s: seq<byte>)
    requires PCount(s).Ok?
    ensures Ate(s, PCount(s).value.1, 1) && PCount(s).value.0 <= MAX_COMPRESSED_U32
  {
    hide PU;
    SoundU(s);
  }

  lemma SoundToken(s: seq<byte>)
    requires PToken(s).Ok?
    ensures Ate(s, PToken(s).value.1, 1) && TokenTag(PToken(s).value.0).Some?
  {
    hide PU;
    SoundU(s);
    var v := PU(s).value.0;
    TokenRoundTrip(TYPE_DEF, v / 4);
    TokenRoundTrip(TYPE_REF, v / 4);
    TokenRoundTrip(TYPE_SPEC, v / 4);
  }

  lemma {:induction false} SoundMods(s: seq<byte>, room: nat)
    requires PMods(s, room).Ok?
    ensures var (mods, rest) := PMods(s, room).value;
            && |mods| <= room && CanonMods(mods) && !StartsMod(rest)
            && Ate(s, rest, 2 * |mods|) && (mods == [] ==> rest == s) && (mods != [] <==> StartsMod(s))
    decreases room
  {
    if StartsMod(s) {
      hide PToken, TokenTag;
      SoundToken(s[1..]);
      var rest := PToken(s[1..]).value.1;
      SoundMods(rest, room - 1);
      AteTrans(s, s[1..], rest, 1, 1);
      AteTrans(s, rest, PMods(s, room).value.1, 2, 2 * |PMods(rest, room - 1).value.0|);
    }
  }

  lemma {:induction false} SoundUs(s: seq<byte>, n: nat)
    requires PUs(s, n).Ok?
    ensures var (vs, rest) := PUs(s, n).value;
            |vs| == n && (forall v | v in vs :: v <= MAX_COMPRESSED_U32) && Ate(s, rest, n)
  {
    hide PU;
    if n == 0 {
    } else {
      SoundU(s);
      SoundUs(PU(s).value.1, n - 1);
      AteTrans(s, PU(s).value.1, PUs(s, n).value.1, 1, n - 1);
    }
  }

  lemma {:induction false} SoundIs(s: seq<byte>, n: nat)
    requires PIs(s, n).Ok?
    ensures var (vs, rest) := PIs(s, n).value;
            |vs| == n && (forall v | v in vs :: -0x1000_0000 <= v < 0x1000_0000) && Ate(s, rest, n)
  {
    hide PI;
    if n == 0 {
    } else {
      SoundI(s);
      SoundIs(PI(s).value.1, n - 1);
      AteTrans(s, PI(s).value.1, PIs(s, n).value.1, 1, n - 1);
    }
  }

  lemma SoundShape(s: seq<byte>)
    requires PShape(s).Ok?
    ensures var (shape, rest) := PShape(s).value;
            CanonShape(shape) && Ate(s, rest, 3 + |shape.sizes| + |shape.loBounds|)
  {
    hide PU, PUs, PIs;
    var s1 := PU(s).value.1;
    var (n, s2) := PCount(s1).value;
    var s3 := PUs(s2, n).value.1;
    var (k, s4) := PCount(s3).value;
    var s5 := PIs(s4, k).value.1;
    SoundU(s);
    SoundU(s1);
    SoundUs(s2, n);
    SoundU(s3);
    SoundIs(s4, k);
    AteTrans(s, s1, s2, 1, 1);
    AteTrans(s, s2, s3, 2, n);
    AteTrans(s, s3, s4, 2 + n, 1);
    AteTrans(s, s4, s5, 3 + n, k);
  }

  lemma BodyHead(b: byte, s: seq<byte>, limit: nat, depth: nat, pinned: bool)
    requires depth <= limit && PTypeBody(b, s, limit, depth, pinned).Ok?
    ensures var t := PTypeBody(b, s, limit, depth, pinned).value.0;
            !t.Modified? && (t.ByRef? <==> b == BYREF) && (t.Pinned? <==> b == PINNED)
  {
    hide PToken, PU, PShape, PModsType, PTypes, PSig, PCount, PType;
  }

  /** The first byte of what was parsed shows in the tree. */
  lemma ParsedHead(s: seq<byte>, limit: nat, depth: nat, pinned: bool)
    requires depth <= limit && PType(s, limit, depth, pinned).Ok?
    ensures s != []
    ensures var t := PType(s, limit, depth, pinned).value.0;
            && (t.Modified? <==> StartsMod(s))
            && (t.ByRef? <==> s[0] == BYREF)
            && (t.Pinned? <==> s[0] == PINNED)
  {
    hide PMods, PTypeBody;
    SoundMods(s, limit);
    assert PTypeInner(s, limit, depth + 1, pinned).Ok?;
    if !StartsMod(s) {
      BodyHead(s[0], s[1..], limit, depth + 1, pinned);
    }
  }

  ghost predicate GoodType(t: Type, limit: nat, depth: nat, pinned: bool) {
    CanonType(t, pinned) && depth + Depth(t) <= limit && LongestMods(t) <= limit
  }

  ghost predicate GoodTypes(ts: seq<Type>, limit: nat, depth: nat, pinned: bool) {
    CanonTypes(ts, pinned) && depth + DepthTypes(ts) <= limit && LongestModsTypes(ts) <= limit
  }

  ghost predicate GoodParam(p: Param, limit: nat, depth: nat, pinned: bool) {
    CanonParam(p, pinned) && depth + Depth(p.type_) <= limit && LongestModsParam(p) <= limit
  }

  ghost predicate GoodParams(ps: seq<Param>, limit: nat, depth: nat, pinned: bool) {
    CanonParams(ps, pinned) && depth + DepthParams(ps) <= limit && LongestModsParams(ps) <= limit
  }

  ghost predicate GoodSig(m: MethodSig, limit: nat, depth: nat, pinned: bool) {
    CanonSig(m, pinned) && depth + DepthSig(m) <= limit && LongestModsSig(m) <= limit
  }

  lemma GoodModified(mods: seq<CustomMod>, inner: Type, limit: nat, depth: nat, pinned: bool)
    requires depth < limit && GoodType(inner, limit, depth + 1, pinned)
    requires CanonMods(mods) && 1 <= |mods| <= limit && !inner.Modified?
    ensures GoodType(Modified(mods, inner), limit, depth, pinned)
    ensures Nodes(Modified(mods, inner)) <= 2 * |mods| + Nodes(inner)
  {}

  lemma {:induction false} SoundType(s: seq<byte>, limit: nat, depth: nat, pinned: bool)
    requires depth <= limit && PType(s, limit, depth, pinned).Ok?
    ensures var (t, rest) := PType(s, limit, depth, pinned).value;
            GoodType(t, limit, depth, pinned) && Ate(s, rest, Nodes(t))
    decreases limit - depth, 0
  {
    hide PTypeInner;
    assert PTypeInner(s, limit, depth + 1, pinned).Ok?;
    SoundInner(s, limit, depth + 1, pinned);
  }

  lemma {:induction false} SoundInner(s: seq<byte>, limit: nat, depth: nat, pinned: bool)
    requires 0 < depth <= limit && PTypeInner(s, limit, depth, pinned).Ok?
    ensures var (t, rest) := PTypeInner(s, limit, depth, pinned).value;
            GoodType(t, limit, depth - 1, pinned) && Ate(s, rest, Nodes(t))
    decreases limit - depth, 6
  {
    hide PTypeBody, PMods, PType, Ate, GoodType, Nodes, CanonMods;
    var (leading, s0) := PMods(s, limit).value;
    SoundMods(s, limit);
    if leading != [] {
      SoundType(s0, limit, depth, pinned);
      ParsedHead(s0, limit, depth, pinned);
      var (inner, rest) := PType(s0, limit, depth, pinned).value;
      GoodModified(leading, inner, limit, depth - 1, pinned);
      AteTrans(s, s0, rest, 2 * |leading|, Nodes(inner));
      AteLess(s, rest, 2 * |leading| + Nodes(inner), Nodes(Modified(leading, inner)));
    } else {
      var t, rest := SoundBody(s0[0], s0[1..], limit, depth, pinned);
      AteOne(s);
      NodesPositive(t);
      AteTrans(s, s[1..], rest, 1, Nodes(t) - 1);
    }
  }

  lemma NodesPositive(t: Type)
    ensures Nodes(t) >= 1
  {}

  lemma AteOne(s: seq<byte>)
    requires s != []
    ensures Ate(s, s[1..], 1)
  {}

  lemma {:induction false} SoundBody(b: byte, s: seq<byte>, limit: nat, depth: nat, pinned: bool) returns (t: Type, rest: seq<byte>)
    requires 0 < depth <= limit && PTypeBody(b, s, limit, depth, pinned).Ok?
    ensures PTypeBody(b, s, limit, depth, pinned) == Ok((t, rest))
    ensures GoodType(t, limit, depth - 1, pinned) && Ate(s, rest, Nodes(t) - 1)
    decreases limit - depth, 5
  {
    hide PToken, PU, PShape, PModsType, PTypes, PSig, PCount, PType, TokenTag;
    t, rest := PTypeBody(b, s, limit, depth, pinned).value.0, PTypeBody(b, s, limit, depth, pinned).value.1;
    if SimpleOf(b).Some? {
    } else if b == PTR || b == SZARRAY {
      SoundModsType(s, limit, depth, pinned);
    } else if b == BYREF {
      SoundType(s, limit, depth, pinned);
    } else if b == PINNED {
      SoundType(s, limit, depth, true);
    } else if b == VALUETYPE || b == CLASS {
      SoundToken(s);
    } else if b == VAR || b == MVAR {
      SoundU(s);
    } else if b == ARRAY {
      var (element, s1) := PType(s, limit, depth, pinned).value;
      SoundType(s, limit, depth, pinned);
      SoundShape(s1);
      AteTrans(s, s1, rest, Nodes(element), 3 + |t.shape.sizes| + |t.shape.loBounds|);
    } else if b == GENERICINST {
      SoundGenericInst(s, limit, depth, pinned);
    } else {
      SoundSig(s, limit, depth, pinned);
    }
  }

  lemma {:induction false} SoundGenericInst(s: seq<byte>, limit: nat, depth: nat, pinned: bool)
    requires 0 < depth <= limit && PTypeBody(GENERICINST, s, limit, depth, pinned).Ok?
    ensures var (t, rest) := PTypeBody(GENERICINST, s, limit, depth, pinned).value;
            GoodType(t, limit, depth - 1, pinned) && Ate(s, rest, Nodes(t) - 1)
    decreases limit - depth, 4
  {
    hide PToken, PU, PTypes, TokenTag;
    var s1 := s[1..];
    var s2 := PToken(s1).value.1;
    var (count, s3) := PCount(s2).value;
    var (args, rest) := PTypes(s3, count, limit, depth, pinned).value;
    SoundToken(s1);
    SoundU(s2);
    SoundTypes(s3, count, limit, depth, pinned);
    AteTrans(s, s1, s2, 1, 1);
    AteTrans(s, s2, s3, 2, 1);
    AteTrans(s, s3, rest, 3, NodesTypes(args));
  }

  lemma {:induction false} SoundModsType(s: seq<byte>, limit: nat, depth: nat, pinned: bool)
    requires depth <= limit && PModsType(s, limit, depth, pinned).Ok?
    ensures var ((mods, inner), rest) := PModsType(s, limit, depth, pinned).value;
            && CanonMods(mods) && |mods| <= limit && !inner.Modified?
            && GoodType(inner, limit, depth, pinned) && Ate(s, rest, |mods| + Nodes(inner))
    decreases limit - depth, 1
  {
    hide PMods, PType, Ate, GoodType, Nodes;
    var (mods, s1) := PMods(s, limit).value;
    var (inner, rest) := PType(s1, limit, depth, pinned).value;
    SoundMods(s, limit);
    SoundType(s1, limit, depth, pinned);
    ParsedHead(s1, limit, depth, pinned);
    AteTrans(s, s1, rest, 2 * |mods|, Nodes(inner));
    AteLess(s, rest, 2 * |mods| + Nodes(inner), |mods| + Nodes(inner));
  }

  lemma AteLess(s: seq<byte>, r: seq<byte>, a: nat, b: nat)
    requires Ate(s, r, a) && b <= a
    ensures Ate(s, r, b)
  {}

  lemma {:induction false} SoundTypes(s: seq<byte>, n: nat, limit: nat, depth: nat, pinned: bool)
    requires depth <= limit && PTypes(s, n, limit, depth, pinned).Ok?
    ensures var (ts, rest) := PTypes(s, n, limit, depth, pinned).value;
            |ts| == n && GoodTypes(ts, limit, depth, pinned) && Ate(s, rest, NodesTypes(ts))
    decreases limit - depth, 2, n
  {
    hide PType;
    if n == 0 {
    } else {
      var (t, s1) := PType(s, limit, depth, pinned).value;
      var (ts, rest) := PTypes(s1, n - 1, limit, depth, pinned).value;
      SoundType(s, limit, depth, pinned);
      SoundTypes(s1, n - 1, limit, depth, pinned);
      AteTrans(s, s1, rest, Nodes(t), NodesTypes(ts));
      assert ([t] + ts)[1..] == ts;
    }
  }

  lemma {:induction false} SoundParam(s: seq<byte>, limit: nat, depth: nat, pinned: bool)
    requires depth <= limit && PParam(s, limit, depth, pinned).Ok?
    ensures var (p, rest) := PParam(s, limit, depth, pinned).value;
            GoodParam(p, limit, depth, pinned) && Ate(s, rest, |p.mods| + Nodes(p.type_))
    decreases limit - depth, 1
  {
    hide PMods, PType, Nodes, Depth, LongestMods, Ate, CanonMods;
    var (mods, s1) := PMods(s, limit).value;
    SoundMods(s, limit);
    var s2 := if s1[0] == BYREF then s1[1..] else s1;
    AteLess(s, s1, 2 * |mods|, |mods|);
    if s1[0] == BYREF {
      AteOne(s1);
      AteTrans(s, s1, s2, |mods|, 1);
      AteLess(s, s2, |mods| + 1, |mods|);
    }
    var (t, rest) := PType(s2, limit, depth, pinned).value;
    SoundType(s2, limit, depth, pinned);
    ParsedHead(s2, limit, depth, pinned);
    AteTrans(s, s2, rest, |mods|, Nodes(t));
  }

  lemma {:induction false} SoundParams(s: seq<byte>, n: nat, limit: nat, depth: nat, pinned: bool)
    requires depth <= limit && PParams(s, n, limit, depth, pinned).Ok?
    ensures var (ps, rest) := PParams(s, n, limit, depth, pinned).value;
            |ps| == n && GoodParams(ps, limit, depth, pinned) && Ate(s, rest, NodesParams(ps))
    decreases limit - depth, 2, n
  {
    hide PParam;
    if n == 0 {
    } else {
      var (p, s1) := PParam(s, limit, depth, pinned).value;
      var (ps, rest) := PParams(s1, n - 1, limit, depth, pinned).value;
      SoundParam(s, limit, depth, pinned);
      SoundParams(s1, n - 1, limit, depth, pinned);
      AteTrans(s, s1, rest, |p.mods| + Nodes(p.type_), NodesParams(ps));
      assert ([p] + ps)[1..] == ps;
    }
  }

  lemma GoodCons(p: Param, ps: seq<Param>, limit: nat, depth: nat, pinned: bool)
    requires GoodParam(p, limit, depth, pinned) && GoodParams(ps, limit, depth, pinned)
    ensures GoodParams([p] + ps, limit, depth, pinned)
    ensures NodesParams([p] + ps) == |p.mods| + Nodes(p.type_) + NodesParams(ps)
  {
    assert ([p] + ps)[1..] == ps;
  }

  lemma GoodNone(limit: nat, depth: nat, pinned: bool)
    requires depth <= limit
    ensures GoodParams([], limit, depth, pinned) && NodesParams([]) == 0
  {}

  lemma {:induction false} SoundSplit(s: seq<byte>, n: nat, past: bool, limit: nat, depth: nat, pinned: bool)
    requires depth <= limit && PSplit(s, n, past, limit, depth, pinned).Ok?
    ensures var ((ps, vs), rest) := PSplit(s, n, past, limit, depth, pinned).value;
            && |ps| + |vs| == n && (past ==> ps == [])
            && GoodParams(ps, limit, depth, pinned) && GoodParams(vs, limit, depth, pinned)
            && Ate(s, rest, NodesParams(ps) + NodesParams(vs))
    decreases limit - depth, 2, n
  {
    hide PParam, GoodParam, GoodParams, NodesParams, Nodes;
    if n == 0 {
      GoodNone(limit, depth, pinned);
    } else {
      var s1 := if s[0] == SENTINEL then s[1..] else s;
      var past' := past || s[0] == SENTINEL;
      var (p, s2) := PParam(s1, limit, depth, pinned).value;
      var ((ps, vs), rest) := PSplit(s2, n - 1, past', limit, depth, pinned).value;
      SoundParam(s1, limit, depth, pinned);
      SoundSplit(s2, n - 1, past', limit, depth, pinned);
      var k := |p.mods| + Nodes(p.type_);
      assert Ate(s, s1, 0);
      AteTrans(s, s1, s2, 0, k);
      AteTrans(s, s2, rest, k, NodesParams(ps) + NodesParams(vs));
      GoodCons(p, ps, limit, depth, pinned);
      GoodCons(p, vs, limit, depth, pinned);
    }
  }

  lemma SoundSigHead(s: seq<byte>)
    requires PSigHead(s).Ok?
    ensures Ate(s, PSigHead(s).value.1, 1) && CanonConv(PSigHead(s).value.0.0)
  {
    hide PU;
    assert Ate(s, s[1..], 1);
    if Bit(s[0], 0x10) {
      SoundU(s[1..]);
      AteTrans(s, s[1..], PU(s[1..]).value.1, 1, 1);
    }
  }

  lemma {:induction false} SoundSig(s: seq<byte>, limit: nat, depth: nat, pinned: bool)
    requires depth <= limit && PSig(s, limit, depth, pinned).Ok?
    ensures var (m, rest) := PSig(s, limit, depth, pinned).value;
            GoodSig(m, limit, depth, pinned) && Ate(s, rest, NodesSig(m))
    decreases limit - depth, 3
  {
    hide PSigHead, PCount, PParam, PSplit, PU, Ate, CanonConv, Nodes, NodesParams;
    assert PSigInner(s, limit, depth + 1, pinned).Ok?;
    var s1 := PSigHead(s).value.1;
    assert PSigBody(s1, limit, depth + 1, pinned).Ok?;
    var (count, s2) := PCount(s1).value;
    var (ret, s3) := PParam(s2, limit, depth + 1, pinned).value;
    var ((ps, vs), rest) := PSplit(s3, count, false, limit, depth + 1, pinned).value;
    SoundSigHead(s);
    SoundCount(s1);
    SoundParam(s2, limit, depth + 1, pinned);
    SoundSplit(s3, count, false, limit, depth + 1, pinned);
    AteTrans(s, s1, s2, 1, 1);
    AteTrans(s, s2, s3, 2, |ret.mods| + Nodes(ret.type_));
    AteTrans(s, s3, rest, 2 + |ret.mods| + Nodes(ret.type_), NodesParams(ps) + NodesParams(vs));
    AteLess(s, rest, 2 + |ret.mods| + Nodes(ret.type_) + NodesParams(ps) + NodesParams(vs), NodesSig(PSig(s, limit, depth, pinned).value.0));
  }

  /** `TYPEDBYREF` alone costs no depth; a pinned local has two runs of modifiers, each within the limit. */
  ghost predicate GoodLocal(l: LocalVar, limit: nat) {
    && CanonLocal(l) && |l.mods| <= (if l.pinned then 2 * limit else limit)
    && (l == LocalVar([], false, false, Simple(TypedByRef)) || GoodType(l.type_, limit, 0, false))
  }

  function NodesLocals(ls: seq<LocalVar>): nat {
    if ls == [] then 0 else |ls[0].mods| + Nodes(ls[0].type_) + NodesLocals(ls[1..])
  }

  /** What comes before the type of a local: two runs of modifiers and two markers. */
  lemma LocalFront(s: seq<byte>, limit: nat) returns (mods: seq<CustomMod>, pinned: bool, s3: seq<byte>)
    requires PLocal(s, limit).Ok? && s[0] != TYPEDBYREF
    ensures PType(s3, limit, 0, false).Ok?
    ensures var (t, rest) := PType(s3, limit, 0, false).value;
            exists byRef: bool ::
              && PLocal(s, limit).value == (LocalVar(mods, pinned, byRef, t), rest)
              && (!byRef && s3 != [] ==> s3[0] != BYREF && !StartsMod(s3))
    ensures CanonMods(mods) && |mods| <= (if pinned then 2 * limit else limit) && Ate(s, s3, |mods|)
  {
    hide PMods, PType, SuffixOf;
    var (first, s1) := PMods(s, limit).value;
    SoundMods(s, limit);
    pinned := s1[0] == PINNED;
    var more, s2 := [], s1;
    mods := first;
    AteLess(s, s1, 2 * |first|, |first|);
    if pinned {
      more, s2 := PMods(s1[1..], limit).value.0, PMods(s1[1..], limit).value.1;
      SoundMods(s1[1..], limit);
      AteOne(s1);
      AteTrans(s, s1, s1[1..], |first|, 1);
      AteTrans(s, s1[1..], s2, |first| + 1, 2 * |more|);
      AteLess(s, s2, |first| + 1 + 2 * |more|, |first| + |more|);
      mods := first + more;
    } else {
      assert first + [] == first;
    }
    s3 := s2;
    if s2[0] == BYREF {
      s3 := s2[1..];
      AteOne(s2);
      AteTrans(s, s2, s3, |mods|, 1);
      AteLess(s, s3, |mods| + 1, |mods|);
    }
    assert PLocal(s, limit).value.0.byRef == (s2[0] == BYREF);
  }

  lemma SoundLocal(s: seq<byte>, limit: nat)
    requires PLocal(s, limit).Ok?
    ensures var (l, rest) := PLocal(s, limit).value;
            GoodLocal(l, limit) && Ate(s, rest, |l.mods| + Nodes(l.type_))
  {
    if s[0] == TYPEDBYREF {
      AteOne(s);
    } else {
      NotPinned(s, limit);
      hide PMods, PType, PLocal, Nodes, GoodType, Ate, CanonMods;
      var mods, pinned, s3 := LocalFront(s, limit);
      SoundType(s3, limit, 0, false);
      ParsedHead(s3, limit, 0, false);
      var (t, rest) := PType(s3, limit, 0, false).value;
      GoodIsCanon(t, limit);
      AteTrans(s, s3, rest, |mods|, Nodes(t));
    }
  }

  lemma NotPinned(s: seq<byte>, limit: nat)
    requires PLocal(s, limit).Ok?
    ensures !PLocal(s, limit).value.0.type_.Pinned?
  {
    hide PMods, PType;
  }

  lemma GoodIsCanon(t: Type, limit: nat)
    requires GoodType(t, limit, 0, false)
    ensures CanonType(t, false)
  {}

  lemma {:induction false} SoundLocals(s: seq<byte>, n: nat, limit: nat)
    requires PLocals(s, n, limit).Ok?
    ensures var (ls, rest) := PLocals(s, n, limit).value;
            |ls| == n && (forall l | l in ls :: GoodLocal(l, limit)) && Ate(s, rest, NodesLocals(ls))
    decreases n
  {
    hide PLocal, GoodLocal;
    if n == 0 {
    } else {
      var (l, s1) := PLocal(s, limit).value;
      var (ls, rest) := PLocals(s1, n - 1, limit).value;
      SoundLocal(s, limit);
      SoundLocals(s1, n - 1, limit);
      assert ([l] + ls)[1..] == ls;
      AteTrans(s, s1, rest, |l.mods| + Nodes(l.type_), NodesLocals(ls));
    }
  }

  /** Method signatures: the result is canonical, within the limit, and paid for byte by byte. */
  lemma MethodSigSound(s: seq<byte>, limit: nat)
    requires PMethodSig(s, limit).Ok?
    ensures var (m, rest) := PMethodSig(s, limit).value;
            && SuffixOf(rest, s)
            && CanonSig(m, false) && DepthSig(m) <= limit && LongestModsSig(m) <= limit
            && NodesSig(m) <= |s| - |rest|
  {
    SoundSig(s, limit, 0, false);
  }

  lemma TypeSpecSound(s: seq<byte>, limit: nat)
    requires PTypeSpec(s, limit).Ok?
    ensures var (t, rest) := PTypeSpec(s, limit).value;
            && SuffixOf(rest, s)
            && CanonType(t, false) && Depth(t) <= limit && LongestMods(t) <= limit
            && Nodes(t) <= |s| - |rest|
  {
    SoundType(s, limit, 0, false);
  }

  lemma FieldSigSound(s: seq<byte>, limit: nat)
    requires PFieldSig(s, limit).Ok?
    ensures var (f, rest) := PFieldSig(s, limit).value;
            && SuffixOf(rest, s)
            && CanonMods(f.mods) && |f.mods| <= limit && !f.type_.Modified?
            && CanonType(f.type_, false) && Depth(f.type_) <= limit && LongestMods(f.type_) <= limit
            && |f.mods| + Nodes(f.type_) < |s| - |rest|
  {
    hide PModsType;
    AteOne(s);
    SoundModsType(s[1..], limit, 0, false);
    var ((mods, t), rest) := PModsType(s[1..], limit, 0, false).value;
    AteTrans(s, s[1..], rest, 1, |mods| + Nodes(t));
  }

  lemma PropertySigSound(s: seq<byte>, limit: nat)
    requires PPropertySig(s, limit).Ok?
    ensures var (p, rest) := PPropertySig(s, limit).value;
            && SuffixOf(rest, s)
            && GoodParam(p.ret, limit, 0, false) && GoodParams(p.params, limit, 0, false)
            && NodesParams([p.ret] + p.params) < |s| - |rest|
  {
    hide PCount, PParam, PParams;
    var s1 := s[1..];
    AteOne(s);
    SoundCount(s1);
    var (count, s2) := PCount(s1).value;
    SoundParam(s2, limit, 0, false);
    var (ret, s3) := PParam(s2, limit, 0, false).value;
    SoundParams(s3, count, limit, 0, false);
    var (ps, rest) := PParams(s3, count, limit, 0, false).value;
    GoodCons(ret, ps, limit, 0, false);
    AteTrans(s, s1, s2, 1, 1);
    AteTrans(s, s2, s3, 2, |ret.mods| + Nodes(ret.type_));
    AteTrans(s, s3, rest, 2 + |ret.mods| + Nodes(ret.type_), NodesParams(ps));
  }

  lemma LocalSigSound(s: seq<byte>, limit: nat)
    requires PLocalSig(s, limit).Ok?
    ensures var (ls, rest) := PLocalSig(s, limit).value;
            && SuffixOf(rest, s)
            && (forall l | l in ls :: GoodLocal(l, limit)) && NodesLocals(ls) < |s| - |rest|
  {
    hide PCount, PLocals, GoodLocal;
    var s1 := s[1..];
    AteOne(s);
    SoundCount(s1);
    var (count, s2) := PCount(s1).value;
    SoundLocals(s2, count, limit);
    AteTrans(s, s1, s2, 1, 1);
    AteTrans(s, s2, PLocals(s2, count, limit).value.1, 2, NodesLocals(PLocals(s2, count, limit).value.0));
  }

  lemma MethodSpecSound(s: seq<byte>, limit: nat)
    requires PMethodSpec(s, limit).Ok?
    ensures var (args, rest) := PMethodSpec(s, limit).value;
            && SuffixOf(rest, s)
            && GoodTypes(args, limit, 0, false) && NodesTypes(args) < |s| - |rest|
  {
    hide PCount, PTypes;
    var s1 := s[1..];
    AteOne(s);
    SoundCount(s1);
    var (count, s2) := PCount(s1).value;
    SoundTypes(s2, count, limit, 0, false);
    var (args, rest) := PTypes(s2, count, limit, 0, false).value;
    AteTrans(s, s1, s2, 1, 1);
    AteTrans(s, s2, rest, 2, NodesTypes(args));
  }
}
