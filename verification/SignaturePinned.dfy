/**
 * What the pinned flag does to a parse: it refuses exactly the types in which a `PINNED` occurs,
 * and changes nothing else. A local that is itself pinned is read without the flag, so a pinned
 * type may still occur inside it.
 */
module SignaturePinned {
  import opened Wrappers
  import opened Bytes
  import opened SignatureAst
  import opened SignatureGrammar
  import opened SignatureRoundTrip
  import opened SignatureSound
  import opened SignatureEntry

  /** No `Pinned` occurs anywhere in the tree. */
  predicate Unpinned(t: Type)
    decreases t
  {
    match t
    case Ptr(_, inner) => Unpinned(inner)
    case ByRef(inner) => Unpinned(inner)
    case Array(element, _) => Unpinned(element)
    case SzArray(_, inner) => Unpinned(inner)
    case GenericInst(_, _, args) => UnpinnedTypes(args)
    case FnPtr(sig) => UnpinnedSig(sig)
    case Modified(_, inner) => Unpinned(inner)
    case Pinned(_) => false
    case _ => true
  }

  predicate UnpinnedTypes(ts: seq<Type>)
    decreases ts
  {
    ts == [] || (Unpinned(ts[0]) && UnpinnedTypes(ts[1..]))
  }

  predicate UnpinnedParams(ps: seq<Param>)
    decreases ps
  {
    ps == [] || (Unpinned(ps[0].type_) && UnpinnedParams(ps[1..]))
  }

  predicate UnpinnedSig(m: MethodSig)
    decreases m
  {
    Unpinned(m.ret.type_) && UnpinnedParams(m.params) && UnpinnedParams(m.varargs)
  }

  /** With the flag set, what parsed without it parses the same way, or is refused as malformed. */
  ghost predicate Flagged<T(!new)>(free: Parsed<T>, flagged: Parsed<T>, unpinned: bool) {
    free.Ok? ==> flagged == if unpinned then free else Err(Malformed)
  }

  lemma {:induction false} PinType(s: seq<byte>, limit: nat, depth: nat)
    requires depth <= limit && PType(s, limit, depth, false).Ok?
    ensures Flagged(PType(s, limit, depth, false), PType(s, limit, depth, true), Unpinned(PType(s, limit, depth, false).value.0))
    decreases limit - depth, 0
  {
    hide PTypeInner, Unpinned;
    assert PTypeInner(s, limit, depth + 1, false).Ok?;
    PinInner(s, limit, depth + 1);
  }

  lemma {:induction false} PinInner(s: seq<byte>, limit: nat, depth: nat)
    requires depth <= limit && PTypeInner(s, limit, depth, false).Ok?
    ensures Flagged(PTypeInner(s, limit, depth, false), PTypeInner(s, limit, depth, true), Unpinned(PTypeInner(s, limit, depth, false).value.0))
    decreases limit - depth, 6
  {
    hide PMods, PType, PTypeBody;
    var (leading, s0) := PMods(s, limit).value;
    if leading != [] {
      PinType(s0, limit, depth);
    } else {
      PinBody(s0[0], s0[1..], limit, depth);
    }
  }

  lemma {:induction false} PinBody(b: byte, s: seq<byte>, limit: nat, depth: nat)
    requires depth <= limit && PTypeBody(b, s, limit, depth, false).Ok?
    ensures Flagged(PTypeBody(b, s, limit, depth, false), PTypeBody(b, s, limit, depth, true), Unpinned(PTypeBody(b, s, limit, depth, false).value.0))
    decreases limit - depth, 5
  {
    hide PModsType, PType, PToken, PU, PShape, PTypes, PSig, PCount;
    if b == PTR || b == SZARRAY {
      PinModsType(s, limit, depth);
    } else if b == BYREF || b == ARRAY {
      PinType(s, limit, depth);
    } else if b == GENERICINST {
      PinGenericInst(s, limit, depth);
    } else if b == FNPTR {
      PinSig(s, limit, depth);
    }
  }

  lemma {:induction false} PinGenericInst(s: seq<byte>, limit: nat, depth: nat)
    requires depth <= limit && PTypeBody(GENERICINST, s, limit, depth, false).Ok?
    ensures Flagged(PTypeBody(GENERICINST, s, limit, depth, false), PTypeBody(GENERICINST, s, limit, depth, true),
                    Unpinned(PTypeBody(GENERICINST, s, limit, depth, false).value.0))
    decreases limit - depth, 4
  {
    hide PToken, PTypes, PCount;
    var s2 := PToken(s[1..]).value.1;
    var (count, s3) := PCount(s2).value;
    PinTypes(s3, count, limit, depth);
  }

  lemma {:induction false} PinModsType(s: seq<byte>, limit: nat, depth: nat)
    requires depth <= limit && PModsType(s, limit, depth, false).Ok?
    ensures Flagged(PModsType(s, limit, depth, false), PModsType(s, limit, depth, true), Unpinned(PModsType(s, limit, depth, false).value.0.1))
    decreases limit - depth, 1
  {
    hide PMods, PType, Unpinned;
    PinType(PMods(s, limit).value.1, limit, depth);
  }

  lemma {:induction false} PinTypes(s: seq<byte>, n: nat, limit: nat, depth: nat)
    requires depth <= limit && PTypes(s, n, limit, depth, false).Ok?
    ensures Flagged(PTypes(s, n, limit, depth, false), PTypes(s, n, limit, depth, true), UnpinnedTypes(PTypes(s, n, limit, depth, false).value.0))
    decreases limit - depth, 2, n
  {
    hide PType, Unpinned;
    if n == 0 {
    } else {
      PinType(s, limit, depth);
      var (t, rest) := PType(s, limit, depth, false).value;
      PinTypes(rest, n - 1, limit, depth);
      var ts := PTypes(rest, n - 1, limit, depth, false).value.0;
      assert ([t] + ts)[1..] == ts;
    }
  }

  lemma {:induction false} PinParam(s: seq<byte>, limit: nat, depth: nat)
    requires depth <= limit && PParam(s, limit, depth, false).Ok?
    ensures Flagged(PParam(s, limit, depth, false), PParam(s, limit, depth, true), Unpinned(PParam(s, limit, depth, false).value.0.type_))
    decreases limit - depth, 1
  {
    hide PMods, PType, Unpinned;
    var s1 := PMods(s, limit).value.1;
    PinType(if s1[0] == BYREF then s1[1..] else s1, limit, depth);
  }

  lemma {:induction false} PinSplit(s: seq<byte>, n: nat, past: bool, limit: nat, depth: nat)
    requires depth <= limit && PSplit(s, n, past, limit, depth, false).Ok?
    ensures var lists := PSplit(s, n, past, limit, depth, false).value.0;
            Flagged(PSplit(s, n, past, limit, depth, false), PSplit(s, n, past, limit, depth, true),
                    UnpinnedParams(lists.0) && UnpinnedParams(lists.1))
    decreases limit - depth, 2, n
  {
    hide PParam, Unpinned;
    if n == 0 {
    } else {
      var s1 := if s[0] == SENTINEL then s[1..] else s;
      PinParam(s1, limit, depth);
      var (p, rest) := PParam(s1, limit, depth, false).value;
      PinSplit(rest, n - 1, past || s[0] == SENTINEL, limit, depth);
      var lists := PSplit(rest, n - 1, past || s[0] == SENTINEL, limit, depth, false).value.0;
      UnpinnedCons(p, lists.0);
      UnpinnedCons(p, lists.1);
    }
  }

  lemma UnpinnedCons(p: Param, ps: seq<Param>)
    ensures UnpinnedParams([p] + ps) <==> Unpinned(p.type_) && UnpinnedParams(ps)
  {
    hide Unpinned;
    assert ([p] + ps)[1..] == ps;
  }

  lemma {:induction false} PinSigBody(s: seq<byte>, limit: nat, depth: nat)
    requires depth <= limit && PSigBody(s, limit, depth, false).Ok?
    ensures var (ret, lists) := PSigBody(s, limit, depth, false).value.0;
            Flagged(PSigBody(s, limit, depth, false), PSigBody(s, limit, depth, true),
                    Unpinned(ret.type_) && UnpinnedParams(lists.0) && UnpinnedParams(lists.1))
    decreases limit - depth, 3
  {
    hide PCount, PParam, PSplit, Unpinned, UnpinnedParams;
    var (count, s1) := PCount(s).value;
    PinParam(s1, limit, depth);
    PinSplit(PParam(s1, limit, depth, false).value.1, count, false, limit, depth);
  }

  lemma {:induction false} PinSig(s: seq<byte>, limit: nat, depth: nat)
    requires depth <= limit && PSig(s, limit, depth, false).Ok?
    ensures Flagged(PSig(s, limit, depth, false), PSig(s, limit, depth, true), UnpinnedSig(PSig(s, limit, depth, false).value.0))
    decreases limit - depth, 0
  {
    hide PSigHead, PSigBody, Unpinned, UnpinnedParams;
    assert PSigInner(s, limit, depth + 1, false).Ok?;
    PinSigBody(PSigHead(s).value.1, limit, depth + 1);
  }

  // Locals.

  /**
   * The type of a local is free of `Pinned` exactly when its bytes would also parse with the flag
   * set, as they are read beneath any other `PINNED`; otherwise the flag would have refused them.
   */
  lemma LocalPinnedExact(s: seq<byte>, limit: nat) returns (typeBytes: seq<byte>)
    requires PLocal(s, limit).Ok? && s[0] != TYPEDBYREF
    ensures SuffixOf(typeBytes, s)
    ensures PType(typeBytes, limit, 0, false) == Ok((PLocal(s, limit).value.0.type_, PLocal(s, limit).value.1))
    ensures Unpinned(PLocal(s, limit).value.0.type_) <==> PType(typeBytes, limit, 0, true).Ok?
  {
    var mods, pinned, s3 := LocalFront(s, limit);
    typeBytes := s3;
    hide PLocal, PType, Unpinned;
    PinType(s3, limit, 0);
  }

  /** A pinned local whose type points to a pinned type is accepted: the condition above can fail. */
  lemma PinnedInsidePinnedLocal()
    ensures PLocalSig([0x07, 0x01, 0x45, 0x0F, 0x45, 0x08], 64)
         == Ok(([LocalVar([], true, false, Ptr([], Pinned(Simple(I4))))], []))
  {
    hide PLocal, PLocalSig, PType;
    var body := [0x0F, 0x45, 0x08];
    PinnedPointer([], 64);
    assert body + [] == body;
    PinnedLocal(body, 64);
    OneLocal([PINNED] + body, 64);
    assert [0x07, 0x01] + ([PINNED] + body) == [0x07, 0x01, 0x45, 0x0F, 0x45, 0x08];
  }

  lemma OneLocal(body: seq<byte>, limit: nat)
    requires PLocal(body, limit).Ok? && body != []
    ensures var (l, rest) := PLocal(body, limit).value;
            PLocalSig([0x07, 0x01] + body, limit) == Ok(([l], rest))
  {
    hide PLocal;
    assert PConvention([0x07, 0x01] + body, 0x07) == Ok((0x07, [0x01] + body)) by {
      assert ([0x07, 0x01] + body)[1..] == [0x01] + body;
    }
    assert PCount([0x01] + body) == Ok((1, body)) by {
      assert ([0x01] + body)[1..] == body;
    }
    hide PConvention, PCount;
    var (l, rest) := PLocal(body, limit).value;
    assert PLocals(rest, 0, limit) == Ok(([], rest));
    assert [l] + [] == [l];
    assert PLocals(body, 1, limit) == Ok(([l], rest));
  }

  lemma PinnedPointer(rest: seq<byte>, limit: nat)
    requires 3 <= limit
    ensures PType([0x0F, 0x45, 0x08] + rest, limit, 0, false) == Ok((Ptr([], Pinned(Simple(I4))), rest))
  {
    InnerStep(0x08, rest, limit, 3, true);
    assert PType([0x08] + rest, limit, 2, true) == Ok((Simple(I4), rest));
    InnerStep(PINNED, [0x08] + rest, limit, 2, false);
    hide PTypeInner;
    assert PType([PINNED] + ([0x08] + rest), limit, 1, false) == Ok((Pinned(Simple(I4)), rest));
    InnerStep(PTR, [PINNED] + ([0x08] + rest), limit, 1, false);
    assert PModsType([PINNED] + ([0x08] + rest), limit, 1, false) == Ok((([], Pinned(Simple(I4))), rest));
    assert [0x0F, 0x45, 0x08] + rest == [PTR] + ([PINNED] + ([0x08] + rest));
  }

  /** A pinned local without modifiers: its type is read with the flag clear. */
  lemma PinnedLocal(body: seq<byte>, limit: nat)
    requires body != [] && !StartsMod(body) && body[0] != BYREF
    requires PType(body, limit, 0, false).Ok? && !PType(body, limit, 0, false).value.0.Pinned?
    ensures var (t, rest) := PType(body, limit, 0, false).value;
            PLocal([PINNED] + body, limit) == Ok((LocalVar([], true, false, t), rest))
  {
    hide PType, PLocal;
    var s := [PINNED] + body;
    assert PMods(s, limit) == Ok(([], s));
    assert PMods(body, limit) == Ok(([], body));
    hide PMods;
    var none: seq<CustomMod> := [];
    PinnedStep(s, none, body, none, body, limit);
    assert none + none == none;
  }
}
