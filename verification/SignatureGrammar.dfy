/**
 * What the signature parser computes, as functions from the unread bytes to a value and the
 * bytes left after it (src/signature.rs, sections II.23.2.1 to II.23.2.15 of ECMA-335).
 * `SignatureParser.Parser` is proved to compute exactly these.
 */
module SignatureGrammar {
  import opened Wrappers
  import opened Bytes
  import opened Tokens
  import opened Compressed
  import opened SignatureAst

  type Parsed<T> = Result<(T, seq<byte>)>

  function PByte(s: seq<byte>): Parsed<byte> {
    if s == [] then Err(Truncated) else Ok((s[0], s[1..]))
  }

  function PU(s: seq<byte>): Parsed<nat> {
    var (v, used) :- ReadU32(s);
    Ok((v, s[used..]))
  }

  function PI(s: seq<byte>): Parsed<int> {
    var (v, used) :- ReadI32(s);
    Ok((v, s[used..]))
  }

  /** A declared count, refused when there are fewer bytes after it than items. */
  function PCount(s: seq<byte>): Parsed<nat> {
    var (count, rest) :- PU(s);
    if count > |rest| then Err(Malformed) else Ok((count, rest))
  }

  function PToken(s: seq<byte>): Parsed<Token> {
    var (value, rest) :- PU(s);
    var tag := value % 4;
    if tag == 0 then Ok((NewToken(TYPE_DEF, value / 4), rest))
    else if tag == 1 then Ok((NewToken(TYPE_REF, value / 4), rest))
    else if tag == 2 then Ok((NewToken(TYPE_SPEC, value / 4), rest))
    else Err(Malformed)
  }

  predicate StartsMod(s: seq<byte>) {
    s != [] && (s[0] == CMOD_REQD || s[0] == CMOD_OPT)
  }

  /** A maximal run of custom modifiers, with room for `room` of them before the limit. */
  function PMods(s: seq<byte>, room: nat): Parsed<seq<CustomMod>>
    decreases room
  {
    if !StartsMod(s) then Ok(([], s))
    else
      var (token, rest) :- PToken(s[1..]);
      if room == 0 then Err(RecursionLimit)
      else
        var (mods, rest') :- PMods(rest, room - 1);
        Ok(([CustomMod(s[0] == CMOD_REQD, token)] + mods, rest'))
  }

  function PUs(s: seq<byte>, n: nat): Parsed<seq<nat>> {
    if n == 0 then Ok(([], s))
    else
      var (v, rest) :- PU(s);
      var (vs, rest') :- PUs(rest, n - 1);
      Ok(([v] + vs, rest'))
  }

  function PIs(s: seq<byte>, n: nat): Parsed<seq<int>> {
    if n == 0 then Ok(([], s))
    else
      var (v, rest) :- PI(s);
      var (vs, rest') :- PIs(rest, n - 1);
      Ok(([v] + vs, rest'))
  }

  function PShape(s: seq<byte>): Parsed<ArrayShape> {
    var (rank, s1) :- PU(s);
    if rank > |s1| + 1 then Err(Malformed)
    else
      var (numSizes, s2) :- PCount(s1);
      var (sizes, s3) :- PUs(s2, numSizes);
      var (numLoBounds, s4) :- PCount(s3);
      var (loBounds, s5) :- PIs(s4, numLoBounds);
      Ok((ArrayShape(rank, sizes, loBounds), s5))
  }

  /** One type, one level below `depth`; `pinned` says whether a `PINNED` encloses it. */
  function PType(s: seq<byte>, limit: nat, depth: nat, pinned: bool): Parsed<Type>
    requires depth <= limit
    decreases limit - depth, 0
  {
    if depth + 1 > limit then Err(RecursionLimit) else PTypeInner(s, limit, depth + 1, pinned)
  }

  function PTypeInner(s: seq<byte>, limit: nat, depth: nat, pinned: bool): Parsed<Type>
    requires depth <= limit
    decreases limit - depth, 4
  {
    var (leading, s0) :- PMods(s, limit);
    if leading != [] then
      var (inner, rest) :- PType(s0, limit, depth, pinned);
      Ok((Modified(leading, inner), rest))
    else
      var (b, s1) :- PByte(s0);
      PTypeBody(b, s1, limit, depth, pinned)
  }

  /** The type whose element-type byte `b` has just been read. */
  function PTypeBody(b: byte, s: seq<byte>, limit: nat, depth: nat, pinned: bool): Parsed<Type>
    requires depth <= limit
    decreases limit - depth, 3
  {
    if SimpleOf(b).Some? then Ok((Simple(SimpleOf(b).value), s))
    else if b == PTR then
      var (part, rest) :- PModsType(s, limit, depth, pinned);
      Ok((Ptr(part.0, part.1), rest))
    else if b == BYREF then
      var (inner, rest) :- PType(s, limit, depth, pinned);
      Ok((ByRef(inner), rest))
    else if b == VALUETYPE then
      var (token, rest) :- PToken(s);
      Ok((ValueType(token), rest))
    else if b == CLASS then
      var (token, rest) :- PToken(s);
      Ok((Class(token), rest))
    else if b == VAR then
      var (index, rest) :- PU(s);
      Ok((Var(index), rest))
    else if b == MVAR then
      var (index, rest) :- PU(s);
      Ok((MVar(index), rest))
    else if b == SZARRAY then
      var (part, rest) :- PModsType(s, limit, depth, pinned);
      Ok((SzArray(part.0, part.1), rest))
    else if b == ARRAY then
      var (element, s1) :- PType(s, limit, depth, pinned);
      var (shape, rest) :- PShape(s1);
      Ok((Array(element, shape), rest))
    else if b == GENERICINST then
      var (kind, s1) :- PByte(s);
      if kind != VALUETYPE && kind != CLASS then Err(Malformed)
      else
        var (def, s2) :- PToken(s1);
        var (count, s3) :- PCount(s2);
        var (args, rest) :- PTypes(s3, count, limit, depth, pinned);
        Ok((GenericInst(kind == VALUETYPE, def, args), rest))
    else if b == FNPTR then
      var (sig, rest) :- PSig(s, limit, depth, pinned);
      Ok((FnPtr(sig), rest))
    else if b == PINNED then
      if pinned then Err(Malformed)
      else
        var (inner, rest) :- PType(s, limit, depth, true);
        Ok((Pinned(inner), rest))
    else if b == INTERNAL then Err(Unsupported)
    else Err(Malformed)
  }

  /** `CustomMod* Type`. */
  function PModsType(s: seq<byte>, limit: nat, depth: nat, pinned: bool): Parsed<(seq<CustomMod>, Type)>
    requires depth <= limit
    decreases limit - depth, 1
  {
    var (mods, s1) :- PMods(s, limit);
    var (inner, rest) :- PType(s1, limit, depth, pinned);
    Ok(((mods, inner), rest))
  }

  function PTypes(s: seq<byte>, n: nat, limit: nat, depth: nat, pinned: bool): Parsed<seq<Type>>
    requires depth <= limit
    decreases limit - depth, 2, n
  {
    if n == 0 then Ok(([], s))
    else
      var (t, rest) :- PType(s, limit, depth, pinned);
      var (ts, rest') :- PTypes(rest, n - 1, limit, depth, pinned);
      Ok(([t] + ts, rest'))
  }

  function PParam(s: seq<byte>, limit: nat, depth: nat, pinned: bool): Parsed<Param>
    requires depth <= limit
    decreases limit - depth, 1
  {
    var (mods, s1) :- PMods(s, limit);
    if s1 == [] then Err(Truncated)
    else
      var byRef := s1[0] == BYREF;
      var (type_, rest) :- PType(if byRef then s1[1..] else s1, limit, depth, pinned);
      Ok((Param(mods, byRef, type_), rest))
  }

  function PParams(s: seq<byte>, n: nat, limit: nat, depth: nat, pinned: bool): Parsed<seq<Param>>
    requires depth <= limit
    decreases limit - depth, 2, n
  {
    if n == 0 then Ok(([], s))
    else
      var (p, rest) :- PParam(s, limit, depth, pinned);
      var (ps, rest') :- PParams(rest, n - 1, limit, depth, pinned);
      Ok(([p] + ps, rest'))
  }

  /**
   * `n` parameters of a method signature, split at the sentinel: those before it and those
   * after it. `past` says whether the sentinel has been passed.
   */
  function PSplit(s: seq<byte>, n: nat, past: bool, limit: nat, depth: nat, pinned: bool)
    : Parsed<(seq<Param>, seq<Param>)>
    requires depth <= limit
    decreases limit - depth, 2, n
  {
    if n == 0 then Ok((([], []), s))
    else if s == [] then Err(Truncated)
    else if s[0] == SENTINEL && past then Err(Malformed)
    else
      var past' := past || s[0] == SENTINEL;
      var (p, rest) :- PParam(if s[0] == SENTINEL then s[1..] else s, limit, depth, pinned);
      var (lists, rest') :- PSplit(rest, n - 1, past', limit, depth, pinned);
      Ok((if past' then (lists.0, [p] + lists.1) else ([p] + lists.0, lists.1), rest'))
  }

  function ConvOf(nibble: byte, generic: bool, count: nat): Option<CallConv> {
    match nibble
    case 0x00 => Some(if generic then Generic(count) else Default)
    case 0x01 => Some(C)
    case 0x02 => Some(StdCall)
    case 0x03 => Some(ThisCall)
    case 0x04 => Some(FastCall)
    case 0x05 => Some(VarArg)
    case 0x09 => Some(Unmanaged)
    case 0x0B => Some(NativeVarArg)
    case _ => None
  }

  predicate Bit(b: byte, mask: byte)
    requires mask > 0
  {
    b / mask % 2 == 1
  }

  function PSig(s: seq<byte>, limit: nat, depth: nat, pinned: bool): Parsed<MethodSig>
    requires depth <= limit
    decreases limit - depth, 0
  {
    if depth + 1 > limit then Err(RecursionLimit) else PSigInner(s, limit, depth + 1, pinned)
  }

  function PSigInner(s: seq<byte>, limit: nat, depth: nat, pinned: bool): Parsed<MethodSig>
    requires depth <= limit
    decreases limit - depth, 4
  {
    var (head, s1) :- PSigHead(s);
    var (body, rest) :- PSigBody(s1, limit, depth, pinned);
    Ok((MethodSig(head.0, head.1, head.2, body.0, body.1.0, body.1.1), rest))
  }

  /** The convention byte and the generic parameter count: convention, `HASTHIS`, `EXPLICITTHIS`. */
  function PSigHead(s: seq<byte>): Parsed<(CallConv, bool, bool)> {
    var (b, s1) :- PByte(s);
    var generic := Bit(b, 0x10);
    var (genericCount, rest) :- if generic then PU(s1) else Ok((0, s1));
    var conv := ConvOf(b % 0x10, generic, genericCount);
    if conv.None? then Err(Malformed) else Ok(((conv.value, Bit(b, 0x20), Bit(b, 0x40)), rest))
  }

  /** The declared parameter count, the return type and that many parameters. */
  function PSigBody(s: seq<byte>, limit: nat, depth: nat, pinned: bool)
    : Parsed<(Param, (seq<Param>, seq<Param>))>
    requires depth <= limit
    decreases limit - depth, 3
  {
    var (count, s1) :- PCount(s);
    var (ret, s2) :- PParam(s1, limit, depth, pinned);
    var (lists, rest) :- PSplit(s2, count, false, limit, depth, pinned);
    Ok(((ret, lists), rest))
  }

  // The entry points. Bytes after the signature are ignored by the callers.

  function PConvention(s: seq<byte>, expected: byte): Parsed<byte> {
    var (b, rest) :- PByte(s);
    if b % 0x10 != expected then Err(Malformed) else Ok((b, rest))
  }

  function PMethodSig(s: seq<byte>, limit: nat): Parsed<MethodSig> {
    PSig(s, limit, 0, false)
  }

  function PFieldSig(s: seq<byte>, limit: nat): Parsed<FieldSig> {
    var (_, s1) :- PConvention(s, 0x06);
    var (part, rest) :- PModsType(s1, limit, 0, false);
    Ok((FieldSig(part.0, part.1), rest))
  }

  function PLocal(s: seq<byte>, limit: nat): Parsed<LocalVar> {
    if s == [] then Err(Truncated)
    else if s[0] == TYPEDBYREF then Ok((LocalVar([], false, false, Simple(TypedByRef)), s[1..]))
    else
      var (mods, s1) :- PMods(s, limit);
      if s1 == [] then Err(Truncated)
      else
        var pinned := s1[0] == PINNED;
        var (more, s2) :- if pinned then PMods(s1[1..], limit) else Ok(([], s1));
        if s2 == [] then Err(Truncated)
        else
          var byRef := s2[0] == BYREF;
          var (type_, rest) :- PType(if byRef then s2[1..] else s2, limit, 0, false);
          if type_.Pinned? then Err(Malformed)
          else Ok((LocalVar(mods + more, pinned, byRef, type_), rest))
  }

  function PLocals(s: seq<byte>, n: nat, limit: nat): Parsed<seq<LocalVar>>
    decreases n
  {
    if n == 0 then Ok(([], s))
    else
      var (l, rest) :- PLocal(s, limit);
      var (ls, rest') :- PLocals(rest, n - 1, limit);
      Ok(([l] + ls, rest'))
  }

  function PLocalSig(s: seq<byte>, limit: nat): Parsed<seq<LocalVar>> {
    var (_, s1) :- PConvention(s, 0x07);
    var (count, s2) :- PCount(s1);
    PLocals(s2, count, limit)
  }

  function PPropertySig(s: seq<byte>, limit: nat): Parsed<PropertySig> {
    var (b, s1) :- PConvention(s, 0x08);
    var (body, rest) :- PPropertyBody(s1, limit);
    Ok((PropertySig(Bit(b, 0x20), body.0, body.1), rest))
  }

  function PPropertyBody(s: seq<byte>, limit: nat): Parsed<(Param, seq<Param>)> {
    var (count, s1) :- PCount(s);
    var (ret, s2) :- PParam(s1, limit, 0, false);
    var (params, rest) :- PParams(s2, count, limit, 0, false);
    Ok(((ret, params), rest))
  }

  function PMethodSpec(s: seq<byte>, limit: nat): Parsed<seq<Type>> {
    var (_, s1) :- PConvention(s, 0x0A);
    var (count, s2) :- PCount(s1);
    PTypes(s2, count, limit, 0, false)
  }

  function PTypeSpec(s: seq<byte>, limit: nat): Parsed<Type> {
    PType(s, limit, 0, false)
  }
}
