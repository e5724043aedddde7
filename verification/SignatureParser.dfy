/**
 * The recursive-descent signature parser of src/signature.rs: a cursor over a blob with a
 * nesting counter and a flag for an enclosing `PINNED`. Each method computes the function of
 * the same production in `SignatureGrammar`, and restores the counter and the flag.
 */
module SignatureParser {
  import opened Wrappers
  import opened Bytes
  import opened Tokens
  import opened Compressed
  import opened SignatureAst
  import opened SignatureGrammar

  /** The two lists of a split signature, each continued by what `r` goes on to parse. */
  function PrependSplit(ps: seq<Param>, vs: seq<Param>, r: Parsed<(seq<Param>, seq<Param>)>)
    : Parsed<(seq<Param>, seq<Param>)>
  {
    match r
    case Ok(v) => Ok(((ps + v.0.0, vs + v.0.1), v.1))
    case Err(e) => Err(e)
  }

  class Parser {
    const data: seq<byte>
    const limit: nat
    var pos: nat
    var depth: nat
    var pinnedSeen: bool

    constructor (data: seq<byte>, limit: nat)
      ensures this.data == data && this.limit == limit
      ensures Valid() && Rest() == data && depth == 0 && !pinnedSeen
    {
      this.data := data;
      this.limit := limit;
      pos := 0;
      depth := 0;
      pinnedSeen := false;
    }

    ghost predicate Valid()
      reads this
    {
      pos <= |data|
    }

    /** The unread bytes. */
    ghost function Rest(): seq<byte>
      reads this
      requires Valid()
    {
      data[pos..]
    }

    /** The outcome `r` and the new cursor are the ones `spec` gives. */
    ghost predicate Did<T(!new)>(r: Result<T>, spec: Parsed<T>)
      reads this
      requires Valid()
    {
      match spec
      case Ok(v) => r == Ok(v.0) && Rest() == v.1
      case Err(e) => r == Err(e)
    }

    /** The counter after a call: restored, except that a failed `enter` leaves its own step behind. */
    twostate predicate Restored<T>(r: Result<T>)
      reads this
    {
      && pinnedSeen == old(pinnedSeen)
      && (depth == old(depth) || (r == Err(RecursionLimit) && depth == old(depth) + 1))
      && (r.Ok? ==> depth == old(depth))
    }

    method U8() returns (r: Result<byte>)
      requires Valid()
      modifies this`pos
      ensures Valid() && Did(r, PByte(old(Rest())))
    {
      if pos == |data| {
        return Err(Truncated);
      }
      pos := pos + 1;
      return Ok(data[pos - 1]);
    }

    method Peek() returns (r: Result<byte>)
      requires Valid()
      ensures r == if Rest() == [] then Err(Truncated) else Ok(Rest()[0])
    {
      if pos == |data| {
        return Err(Truncated);
      }
      return Ok(data[pos]);
    }

    method Cu32() returns (r: Result<nat>)
      requires Valid()
      modifies this`pos
      ensures Valid() && Did(r, PU(old(Rest())))
    {
      var v :- ReadU32(data[pos..]);
      assert data[pos..][v.1..] == data[pos + v.1..];
      pos := pos + v.1;
      return Ok(v.0);
    }

    method Ci32() returns (r: Result<int>)
      requires Valid()
      modifies this`pos
      ensures Valid() && Did(r, PI(old(Rest())))
    {
      var v :- ReadI32(data[pos..]);
      assert data[pos..][v.1..] == data[pos + v.1..];
      pos := pos + v.1;
      return Ok(v.0);
    }

    method BoundedCount() returns (r: Result<nat>)
      requires Valid()
      modifies this`pos
      ensures Valid() && Did(r, PCount(old(Rest())))
    {
      hide PU;
      var count :- Cu32();
      if count > |data| - pos {
        return Err(Malformed);
      }
      return Ok(count);
    }

    method TypeToken() returns (r: Result<Token>)
      requires Valid()
      modifies this`pos
      ensures Valid() && Did(r, PToken(old(Rest())))
    {
      hide PU, NewToken;
      var value :- Cu32();
      PUBound(old(Rest()));
      var tag := value % 4;
      if tag == 0 {
        return Ok(NewToken(TYPE_DEF, value / 4));
      } else if tag == 1 {
        return Ok(NewToken(TYPE_REF, value / 4));
      } else if tag == 2 {
        return Ok(NewToken(TYPE_SPEC, value / 4));
      }
      return Err(Malformed);
    }

    method CustomMods() returns (r: Result<seq<CustomMod>>)
      requires Valid()
      modifies this`pos
      ensures Valid() && Did(r, PMods(old(Rest()), limit))
    {
      hide PToken;
      var mods: seq<CustomMod> := [];
      ghost var s := Rest();
      assert PMods(s, limit) == Prepend(mods, PMods(Rest(), limit)) by { PrependNone(PMods(s, limit)); }
      while pos < |data| && (data[pos] == CMOD_REQD || data[pos] == CMOD_OPT)
        invariant Valid() && |mods| <= limit
        invariant PMods(s, limit) == Prepend(mods, PMods(Rest(), limit - |mods|))
        decreases limit - |mods|
      {
        ghost var here, room := Rest(), limit - |mods|;
        var required := data[pos] == CMOD_REQD;
        pos := pos + 1;
        assert Rest() == here[1..];
        var typeToken :- TypeToken();
        if |mods| < limit {
          PrependOne(mods, CustomMod(required, typeToken), PMods(Rest(), room - 1));
        }
        mods := mods + [CustomMod(required, typeToken)];
        if |mods| > limit {
          return Err(RecursionLimit);
        }
      }
      PrependDone(mods, Rest());
      return Ok(mods);
    }

    method Enter() returns (r: Result<()>)
      requires depth <= limit
      modifies this`depth
      ensures depth == old(depth) + 1
      ensures r == if old(depth) < limit then Ok(()) else Err(RecursionLimit)
    {
      depth := depth + 1;
      if depth > limit {
        return Err(RecursionLimit);
      }
      return Ok(());
    }

    method Leave()
      modifies this`depth
      ensures depth == if old(depth) == 0 then 0 else old(depth) - 1
    {
      depth := if depth == 0 then 0 else depth - 1;
    }

    method ReadType() returns (r: Result<Type>)
      requires Valid() && depth <= limit
      modifies this
      ensures Valid() && Did(r, PType(old(Rest()), limit, old(depth), old(pinnedSeen)))
      ensures Restored(r)
      decreases limit - depth, 0
    {
      hide PTypeInner;
      var _ :- Enter();
      r := TypeInner();
      Leave();
    }

    method TypeInner() returns (r: Result<Type>)
      requires Valid() && depth <= limit
      modifies this
      ensures Valid() && Did(r, PTypeInner(old(Rest()), limit, old(depth), old(pinnedSeen)))
      ensures Restored(r)
      decreases limit - depth, 4
    {
      hide PMods, PType, PTypeBody;
      var leading :- CustomMods();
      if leading != [] {
        var inner :- ReadType();
        return Ok(Modified(leading, inner));
      }
      var b :- U8();
      r := TypeBody(b);
    }

    /** The constructors of `type_inner`, once the element-type byte has been read. */
    method TypeBody(b: byte) returns (r: Result<Type>)
      requires Valid() && depth <= limit
      modifies this
      ensures Valid() && Did(r, PTypeBody(b, old(Rest()), limit, old(depth), old(pinnedSeen)))
      ensures Restored(r)
      decreases limit - depth, 3
    {
      hide PModsType, PType, PToken, PU, PShape, PTypes, PSig, PCount;
      if SimpleOf(b).Some? {
        return Ok(Simple(SimpleOf(b).value));
      } else if b == PTR {
        var part :- ModsType();
        return Ok(Ptr(part.0, part.1));
      } else if b == BYREF {
        var inner :- ReadType();
        return Ok(ByRef(inner));
      } else if b == VALUETYPE {
        var token :- TypeToken();
        return Ok(ValueType(token));
      } else if b == CLASS {
        var token :- TypeToken();
        return Ok(Class(token));
      } else if b == VAR {
        var index :- Cu32();
        return Ok(Var(index));
      } else if b == MVAR {
        var index :- Cu32();
        return Ok(MVar(index));
      } else if b == SZARRAY {
        var part :- ModsType();
        return Ok(SzArray(part.0, part.1));
      } else if b == ARRAY {
        var element :- ReadType();
        var shape :- Shape();
        return Ok(Array(element, shape));
      } else if b == GENERICINST {
        var kind :- U8();
        if kind != VALUETYPE && kind != CLASS {
          return Err(Malformed);
        }
        var def :- TypeToken();
        var count :- BoundedCount();
        var args :- TypeList(count);
        return Ok(GenericInst(kind == VALUETYPE, def, args));
      } else if b == FNPTR {
        var sig :- ReadMethodSig();
        return Ok(FnPtr(sig));
      } else if b == PINNED {
        if pinnedSeen {
          return Err(Malformed);
        }
        pinnedSeen := true;
        var inner := ReadType();
        pinnedSeen := false;
        var t :- inner;
        return Ok(Pinned(t));
      } else if b == INTERNAL {
        return Err(Unsupported);
      }
      return Err(Malformed);
    }

    /** `CustomMod* Type`. */
    method ModsType() returns (r: Result<(seq<CustomMod>, Type)>)
      requires Valid() && depth <= limit
      modifies this
      ensures Valid() && Did(r, PModsType(old(Rest()), limit, old(depth), old(pinnedSeen)))
      ensures Restored(r)
      decreases limit - depth, 1
    {
      hide PMods, PType;
      var mods :- CustomMods();
      var inner :- ReadType();
      return Ok((mods, inner));
    }

    /** The argument loop shared by `GENERICINST` and `MethodSpec`. */
    method TypeList(count: nat) returns (r: Result<seq<Type>>)
      requires Valid() && depth <= limit
      modifies this
      ensures Valid() && Did(r, PTypes(old(Rest()), count, limit, old(depth), old(pinnedSeen)))
      ensures Restored(r)
      decreases limit - depth, 2
    {
      hide PType;
      var args: seq<Type> := [];
      ghost var s := Rest();
      PrependNone(PTypes(s, count, limit, depth, pinnedSeen));
      for i := 0 to count
        invariant Valid() && depth == old(depth) && pinnedSeen == old(pinnedSeen)
        invariant PTypes(s, count, limit, depth, pinnedSeen)
               == Prepend(args, PTypes(Rest(), count - i, limit, depth, pinnedSeen))
      {
        var t :- ReadType();
        PrependOne(args, t, PTypes(Rest(), count - i - 1, limit, depth, pinnedSeen));
        args := args + [t];
      }
      PrependDone(args, Rest());
      return Ok(args);
    }

    method Shape() returns (r: Result<ArrayShape>)
      requires Valid()
      modifies this`pos
      ensures Valid() && Did(r, PShape(old(Rest())))
    {
      hide PU, PI, PCount;
      var rank :- Cu32();
      if rank > |data| - pos + 1 {
        return Err(Malformed);
      }
      var numSizes :- BoundedCount();
      var sizes: seq<nat> := [];
      ghost var s := Rest();
      PrependNone(PUs(s, numSizes));
      for i := 0 to numSizes
        invariant Valid()
        invariant PUs(s, numSizes) == Prepend(sizes, PUs(Rest(), numSizes - i))
      {
        var size :- Cu32();
        PrependOne(sizes, size, PUs(Rest(), numSizes - i - 1));
        sizes := sizes + [size];
      }
      PrependDone(sizes, Rest());
      assert PUs(s, numSizes) == Ok((sizes, Rest()));
      var numLoBounds :- BoundedCount();
      var loBounds: seq<int> := [];
      ghost var s' := Rest();
      PrependNone(PIs(s', numLoBounds));
      for i := 0 to numLoBounds
        invariant Valid()
        invariant PIs(s', numLoBounds) == Prepend(loBounds, PIs(Rest(), numLoBounds - i))
      {
        var bound :- Ci32();
        PrependOne(loBounds, bound, PIs(Rest(), numLoBounds - i - 1));
        loBounds := loBounds + [bound];
      }
      PrependDone(loBounds, Rest());
      assert PIs(s', numLoBounds) == Ok((loBounds, Rest()));
      return Ok(ArrayShape(rank, sizes, loBounds));
    }

    method ReadParam() returns (r: Result<Param>)
      requires Valid() && depth <= limit
      modifies this
      ensures Valid() && Did(r, PParam(old(Rest()), limit, old(depth), old(pinnedSeen)))
      ensures Restored(r)
      decreases limit - depth, 1
    {
      hide PMods, PType;
      var mods :- CustomMods();
      var next :- Peek();
      var byRef := next == BYREF;
      if byRef {
        ghost var s := Rest();
        pos := pos + 1;
        assert Rest() == s[1..];
      }
      var type_ :- ReadType();
      return Ok(Param(mods, byRef, type_));
    }

    method ReadMethodSig() returns (r: Result<MethodSig>)
      requires Valid() && depth <= limit
      modifies this
      ensures Valid() && Did(r, PSig(old(Rest()), limit, old(depth), old(pinnedSeen)))
      ensures Restored(r)
      decreases limit - depth, 0
    {
      hide PSigInner;
      var _ :- Enter();
      r := MethodSigInner();
      Leave();
    }

    method MethodSigInner() returns (r: Result<MethodSig>)
      requires Valid() && depth <= limit
      modifies this
      ensures Valid() && Did(r, PSigInner(old(Rest()), limit, old(depth), old(pinnedSeen)))
      ensures Restored(r)
      decreases limit - depth, 3
    {
      hide PU, PCount, PParam, ConvOf, Bit;
      ghost var start := Rest();
      var b :- U8();
      var generic := Bit(b, 0x10);
      var genericCount := 0;
      if generic {
        genericCount :- Cu32();
      }
      var conv := ConvOf(b % 0x10, generic, genericCount);
      if conv.None? {
        return Err(Malformed);
      }
      assert PSigHead(start) == Ok(((conv.value, Bit(b, 0x20), Bit(b, 0x40)), Rest()));
      hide PSigHead, PSplit;
      var count :- BoundedCount();
      var ret :- ReadParam();
      var lists :- SplitList(count);
      return Ok(MethodSig(conv.value, Bit(b, 0x20), Bit(b, 0x40), ret, lists.0, lists.1));
    }

    /** The parameter loop of `method_sig_inner`, with the sentinel. */
    method SplitList(count: nat) returns (r: Result<(seq<Param>, seq<Param>)>)
      requires Valid() && depth <= limit
      modifies this
      ensures Valid() && Did(r, PSplit(old(Rest()), count, false, limit, old(depth), old(pinnedSeen)))
      ensures Restored(r)
      decreases limit - depth, 2
    {
      hide PParam;
      var params: seq<Param> := [];
      var varargs: seq<Param> := [];
      var past := false;
      ghost var s := Rest();
      PrependSplitNone(PSplit(s, count, false, limit, depth, pinnedSeen));
      for i := 0 to count
        invariant Valid() && depth == old(depth) && pinnedSeen == old(pinnedSeen)
        invariant PSplit(s, count, false, limit, depth, pinnedSeen)
               == PrependSplit(params, varargs, PSplit(Rest(), count - i, past, limit, depth, pinnedSeen))
      {
        ghost var here := Rest();
        var next :- Peek();
        if next == SENTINEL {
          if past {
            return Err(Malformed);
          }
          pos := pos + 1;
          assert Rest() == here[1..];
          past := true;
        }
        var p :- ReadParam();
        if past {
          PrependSplitOne(params, varargs, [], [p], PSplit(Rest(), count - i - 1, past, limit, depth, pinnedSeen));
          varargs := varargs + [p];
        } else {
          PrependSplitOne(params, varargs, [p], [], PSplit(Rest(), count - i - 1, past, limit, depth, pinnedSeen));
          params := params + [p];
        }
      }
      assert params + [] == params && varargs + [] == varargs;
      return Ok((params, varargs));
    }

    method ParamList(count: nat) returns (r: Result<seq<Param>>)
      requires Valid() && depth <= limit
      modifies this
      ensures Valid() && Did(r, PParams(old(Rest()), count, limit, old(depth), old(pinnedSeen)))
      ensures Restored(r)
    {
      hide PParam;
      var params: seq<Param> := [];
      ghost var s := Rest();
      PrependNone(PParams(s, count, limit, depth, pinnedSeen));
      for i := 0 to count
        invariant Valid() && depth == old(depth) && pinnedSeen == old(pinnedSeen)
        invariant PParams(s, count, limit, depth, pinnedSeen)
               == Prepend(params, PParams(Rest(), count - i, limit, depth, pinnedSeen))
      {
        var p :- ReadParam();
        PrependOne(params, p, PParams(Rest(), count - i - 1, limit, depth, pinnedSeen));
        params := params + [p];
      }
      PrependDone(params, Rest());
      return Ok(params);
    }

    method ReadLocalVar() returns (r: Result<LocalVar>)
      requires Valid() && depth == 0 && !pinnedSeen
      modifies this
      ensures Valid() && Did(r, PLocal(old(Rest()), limit))
      ensures Restored(r)
    {
      hide PMods, PType;
      ghost var s := Rest();
      var first :- Peek();
      if first == TYPEDBYREF {
        pos := pos + 1;
        assert Rest() == s[1..];
        return Ok(LocalVar([], false, false, Simple(TypedByRef)));
      }
      var mods :- CustomMods();
      ghost var s1 := Rest();
      var next :- Peek();
      var pinned := next == PINNED;
      ghost var more: seq<CustomMod> := [];
      if pinned {
        pos := pos + 1;
        assert Rest() == s1[1..];
        var after :- CustomMods();
        more := after;
        mods := mods + after;
      } else {
        assert mods + [] == mods;
      }
      ghost var s2 := Rest();
      next :- Peek();
      var byRef := next == BYREF;
      if byRef {
        pos := pos + 1;
        assert Rest() == s2[1..];
      }
      var type_ :- ReadType();
      if type_.Pinned? {
        return Err(Malformed);
      }
      return Ok(LocalVar(mods, pinned, byRef, type_));
    }

    method LocalList(count: nat) returns (r: Result<seq<LocalVar>>)
      requires Valid() && depth == 0 && !pinnedSeen
      modifies this
      ensures Valid() && Did(r, PLocals(old(Rest()), count, limit))
      ensures Restored(r)
    {
      hide PLocal;
      var locals: seq<LocalVar> := [];
      ghost var s := Rest();
      PrependNone(PLocals(s, count, limit));
      for i := 0 to count
        invariant Valid() && depth == 0 && !pinnedSeen
        invariant PLocals(s, count, limit) == Prepend(locals, PLocals(Rest(), count - i, limit))
      {
        var l :- ReadLocalVar();
        PrependOne(locals, l, PLocals(Rest(), count - i - 1, limit));
        locals := locals + [l];
      }
      PrependDone(locals, Rest());
      return Ok(locals);
    }

    method ExpectConvention(expected: byte) returns (r: Result<byte>)
      requires Valid()
      modifies this`pos
      ensures Valid() && Did(r, PConvention(old(Rest()), expected))
    {
      var b :- U8();
      if b % 0x10 != expected {
        return Err(Malformed);
      }
      return Ok(b);
    }

    // The bodies of the `parse_with` entry points.

    method ReadFieldSig() returns (r: Result<FieldSig>)
      requires Valid() && depth == 0 && !pinnedSeen
      modifies this
      ensures Valid() && Did(r, PFieldSig(old(Rest()), limit))
    {
      hide PModsType, PConvention;
      var _ :- ExpectConvention(0x06);
      var part :- ModsType();
      return Ok(FieldSig(part.0, part.1));
    }

    method ReadLocalVarSig() returns (r: Result<seq<LocalVar>>)
      requires Valid() && depth == 0 && !pinnedSeen
      modifies this
      ensures Valid() && Did(r, PLocalSig(old(Rest()), limit))
    {
      hide PLocals, PConvention, PCount;
      var _ :- ExpectConvention(0x07);
      var count :- BoundedCount();
      r := LocalList(count);
    }

    method ReadPropertySig() returns (r: Result<PropertySig>)
      requires Valid() && depth == 0 && !pinnedSeen
      modifies this
      ensures Valid() && Did(r, PPropertySig(old(Rest()), limit))
    {
      hide PConvention, PPropertyBody, Bit;
      var b :- ExpectConvention(0x08);
      var body :- PropertyBody();
      return Ok(PropertySig(Bit(b, 0x20), body.0, body.1));
    }

    method PropertyBody() returns (r: Result<(Param, seq<Param>)>)
      requires Valid() && depth == 0 && !pinnedSeen
      modifies this
      ensures Valid() && Did(r, PPropertyBody(old(Rest()), limit))
    {
      hide PCount, PParam, PParams;
      var count :- BoundedCount();
      var ret :- ReadParam();
      var params :- ParamList(count);
      return Ok((ret, params));
    }

    method ReadMethodSpec() returns (r: Result<seq<Type>>)
      requires Valid() && depth == 0 && !pinnedSeen
      modifies this
      ensures Valid() && Did(r, PMethodSpec(old(Rest()), limit))
    {
      hide PConvention, PCount, PTypes;
      var _ :- ExpectConvention(0x0A);
      var count :- BoundedCount();
      r := TypeList(count);
    }
  }

  lemma PUBound(s: seq<byte>)
    ensures PU(s).Ok? ==> PU(s).value.0 <= MAX_COMPRESSED_U32
  {}

  lemma PrependSplitNone(r: Parsed<(seq<Param>, seq<Param>)>)
    ensures PrependSplit([], [], r) == r
  {
    if r.Ok? {
      assert [] + r.value.0.0 == r.value.0.0 && [] + r.value.0.1 == r.value.0.1;
    }
  }

  lemma PrependSplitOne(ps: seq<Param>, vs: seq<Param>, p: seq<Param>, v: seq<Param>, r: Parsed<(seq<Param>, seq<Param>)>)
    ensures PrependSplit(ps + p, vs + v, r) == PrependSplit(ps, vs, PrependSplit(p, v, r))
  {
    if r.Ok? {
      assert ps + p + r.value.0.0 == ps + (p + r.value.0.0);
      assert vs + v + r.value.0.1 == vs + (v + r.value.0.1);
    }
  }

  // The `parse_with` entry points; what follows the signature in the blob is ignored.

  function ValueOf<T>(r: Parsed<T>): Result<T> {
    match r
    case Ok(v) => Ok(v.0)
    case Err(e) => Err(e)
  }

  method ParseMethodSig(blob: seq<byte>, limit: nat) returns (r: Result<MethodSig>)
    ensures r == ValueOf(PMethodSig(blob, limit))
  {
    hide PSig;
    var p := new Parser(blob, limit);
    r := p.ReadMethodSig();
  }

  method ParseFieldSig(blob: seq<byte>, limit: nat) returns (r: Result<FieldSig>)
    ensures r == ValueOf(PFieldSig(blob, limit))
  {
    hide PFieldSig;
    var p := new Parser(blob, limit);
    r := p.ReadFieldSig();
  }

  method ParseLocalVarSig(blob: seq<byte>, limit: nat) returns (r: Result<seq<LocalVar>>)
    ensures r == ValueOf(PLocalSig(blob, limit))
  {
    hide PLocalSig;
    var p := new Parser(blob, limit);
    r := p.ReadLocalVarSig();
  }

  method ParsePropertySig(blob: seq<byte>, limit: nat) returns (r: Result<PropertySig>)
    ensures r == ValueOf(PPropertySig(blob, limit))
  {
    hide PPropertySig;
    var p := new Parser(blob, limit);
    r := p.ReadPropertySig();
  }

  method ParseMethodSpec(blob: seq<byte>, limit: nat) returns (r: Result<seq<Type>>)
    ensures r == ValueOf(PMethodSpec(blob, limit))
  {
    hide PMethodSpec;
    var p := new Parser(blob, limit);
    r := p.ReadMethodSpec();
  }

  method ParseTypeSpec(blob: seq<byte>, limit: nat) returns (r: Result<Type>)
    ensures r == ValueOf(PTypeSpec(blob, limit))
  {
    hide PType;
    var p := new Parser(blob, limit);
    r := p.ReadType();
  }
}
